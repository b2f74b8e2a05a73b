// Ridge regression on standardised features (fit_ridge in src/research/context_phase2.cpp), over the
// reals. The square root is a parameter: any function that is one on the non-negative reals.
module Ridge {
  import opened Arith
  import opened LinearSolver

  // ----- the model problem -----

  predicate Table(z: Matrix, n: nat) { forall i :: 0 <= i < |z| ==> |z[i]| == n }

  function Sq(x: real): real { x * x }

  function Times(a: real, b: real): real { a * b }

  function SquaredError(z: Matrix, y: Vector, c: real, b: Vector, n: nat, m: nat): real
    requires Table(z, n) && |b| == n && m <= |z| == |y|
  {
    if m == 0 then 0.0 else SquaredError(z, y, c, b, n, m - 1) + Sq(y[m - 1] - c - Dot(z[m - 1], b, n))
  }

  /** sum (y - c - z·b)^2 + penalty |b|^2 */
  function Objective(z: Matrix, y: Vector, c: real, b: Vector, penalty: real, n: nat): real
    requires Table(z, n) && |b| == n && |z| == |y|
  {
    SquaredError(z, y, c, b, n, |y|) + penalty * Dot(b, b, n)
  }

  function Total(y: Vector, m: nat): real
    requires m <= |y|
  {
    if m == 0 then 0.0 else Total(y, m - 1) + y[m - 1]
  }

  function ColumnTotal(z: Matrix, n: nat, j: nat, m: nat): real
    requires Table(z, n) && j < n && m <= |z|
  {
    if m == 0 then 0.0 else ColumnTotal(z, n, j, m - 1) + z[m - 1][j]
  }

  ghost predicate Centred(z: Matrix, n: nat)
    requires Table(z, n)
  {
    forall j :: 0 <= j < n ==> ColumnTotal(z, n, j, |z|) == 0.0
  }

  function Gram(z: Matrix, n: nat, m: nat): (g: Matrix)
    requires Table(z, n) && m <= |z|
    ensures Square(g, n)
  {
    if m == 0 then seq(n, j => seq(n, k => 0.0))
    else
      var g := Gram(z, n, m - 1);
      seq(n, j requires 0 <= j < n => seq(n, k requires 0 <= k < n => g[j][k] + Times(z[m - 1][j], z[m - 1][k])))
  }

  function Moments(z: Matrix, y: Vector, c: real, n: nat, m: nat): (r: Vector)
    requires Table(z, n) && m <= |z| == |y|
    ensures |r| == n
  {
    if m == 0 then seq(n, j => 0.0)
    else
      var r := Moments(z, y, c, n, m - 1);
      seq(n, j requires 0 <= j < n => r[j] + Times(z[m - 1][j], y[m - 1] - c))
  }

  function Shifted(g: Matrix, n: nat, penalty: real): (s: Matrix)
    requires Square(g, n)
    ensures Square(s, n)
  {
    seq(n, j requires 0 <= j < n => g[j][j := g[j][j] + penalty])
  }

  // ----- sums of products -----

  function Plus(u: Vector, v: Vector, n: nat): (s: Vector)
    requires |u| == n && |v| == n
    ensures |s| == n
  {
    seq(n, j requires 0 <= j < n => u[j] + v[j])
  }

  lemma {:induction false} DotPlus(w: Vector, u: Vector, v: Vector, n: nat, top: nat)
    requires |u| == n && |v| == n && top <= n && top <= |w|
    ensures Dot(w, Plus(u, v, n), top) == Dot(w, u, top) + Dot(w, v, top)
  {
    if top > 0 {
      DotPlus(w, u, v, n, top - 1);
      assert w[top - 1] * (u[top - 1] + v[top - 1]) == w[top - 1] * u[top - 1] + w[top - 1] * v[top - 1];
    }
  }

  lemma {:induction false} DotSymmetric(u: Vector, v: Vector, top: nat)
    requires top <= |u| && top <= |v|
    ensures Dot(u, v, top) == Dot(v, u, top)
  {
    if top > 0 { DotSymmetric(u, v, top - 1); }
  }

  lemma {:induction false} DotSelf(u: Vector, n: nat)
    requires n <= |u|
    ensures Dot(u, u, n) >= 0.0
    ensures forall k :: 0 <= k < n ==> Dot(u, u, n) >= u[k] * u[k]
  {
    if n > 0 { DotSelf(u, n - 1); SquareNonNegative(u[n - 1]); forall k | 0 <= k < n { SquareNonNegative(u[k]); } }
  }

  lemma SquareNonNegative(x: real)
    ensures x * x >= 0.0
  {}

  /** sum over j < top of u_j (G_j · v) */
  function Quad(g: Matrix, u: Vector, v: Vector, n: nat, top: nat): real
    requires Square(g, n) && |u| == n && |v| == n && top <= n
  {
    if top == 0 then 0.0 else Quad(g, u, v, n, top - 1) + Times(u[top - 1], Dot(g[top - 1], v, n))
  }

  /** sum over the first m rows of (z_i · u)(z_i · v) */
  function Cross(z: Matrix, u: Vector, v: Vector, n: nat, m: nat): real
    requires Table(z, n) && |u| == n && |v| == n && m <= |z|
  {
    if m == 0 then 0.0 else Cross(z, u, v, n, m - 1) + Times(Dot(z[m - 1], u, n), Dot(z[m - 1], v, n))
  }

  lemma {:induction false} DotAccumulate(row: Vector, f: real, other: Vector, sum: Vector, v: Vector, n: nat, top: nat)
    requires |row| == n && |other| == n && |sum| == n && |v| == n && top <= n
    requires forall k :: 0 <= k < n ==> sum[k] == row[k] + Times(f, other[k])
    ensures Dot(sum, v, top) == Dot(row, v, top) + Times(f, Dot(other, v, top))
  {
    if top > 0 {
      DotAccumulate(row, f, other, sum, v, n, top - 1);
      var k := top - 1;
      AccumulateTerm(row[k], f, other[k], v[k], Dot(other, v, k));
    }
  }

  lemma AccumulateTerm(a: real, f: real, o: real, x: real, s: real)
    ensures (a + Times(f, o)) * x == a * x + f * (o * x)
    ensures Times(f, s + o * x) == Times(f, s) + f * (o * x)
  {}

  /** One more row adds (z·u)(z·v) to the quadratic form of the Gram matrix. */
  lemma {:induction false} QuadAddsRow(z: Matrix, u: Vector, v: Vector, n: nat, m: nat, top: nat)
    requires Table(z, n) && |u| == n && |v| == n && 0 < m <= |z| && top <= n
    ensures Quad(Gram(z, n, m), u, v, n, top)
         == Quad(Gram(z, n, m - 1), u, v, n, top) + Times(Dot(z[m - 1], u, top), Dot(z[m - 1], v, n))
  {
    hide Gram, Times, Dot;
    if top == 0 {
      TimesZero(Dot(z[m - 1], v, n));
      DotNone(z[m - 1], u);
    } else {
      var j, row := top - 1, z[m - 1];
      QuadAddsRow(z, u, v, n, m, j);
      GramRow(z, n, m, j);
      DotAccumulate(Gram(z, n, m - 1)[j], row[j], row, Gram(z, n, m)[j], v, n, n);
      DotLast(row, u, top);
      QuadStep(Quad(Gram(z, n, m - 1), u, v, n, j), u[j], Dot(Gram(z, n, m - 1)[j], v, n), row[j], Dot(row, v, n),
        Dot(row, u, j));
    }
  }

  lemma TimesZero(x: real)
    ensures Times(0.0, x) == 0.0 && Times(x, 0.0) == 0.0
  {}

  lemma DotNone(u: Vector, v: Vector)
    ensures Dot(u, v, 0) == 0.0
  {}

  lemma DotLast(u: Vector, v: Vector, n: nat)
    requires 0 < n <= |u| && n <= |v|
    ensures Dot(u, v, n) == Dot(u, v, n - 1) + Times(u[n - 1], v[n - 1])
  {}

  lemma GramRow(z: Matrix, n: nat, m: nat, j: nat)
    requires Table(z, n) && 0 < m <= |z| && j < n
    ensures forall k :: 0 <= k < n ==> Gram(z, n, m)[j][k] == Gram(z, n, m - 1)[j][k] + Times(z[m - 1][j], z[m - 1][k])
  {}

  lemma QuadStep(q: real, u: real, g: real, r: real, s: real, d: real)
    ensures (q + Times(d, s)) + Times(u, g + Times(r, s)) == (q + Times(u, g)) + Times(d + Times(r, u), s)
  {}

  lemma {:induction false} QuadOfGram(z: Matrix, u: Vector, v: Vector, n: nat, m: nat)
    requires Table(z, n) && |u| == n && |v| == n && m <= |z|
    ensures Quad(Gram(z, n, m), u, v, n, n) == Cross(z, u, v, n, m)
  {
    if m == 0 {
      QuadOfZero(Gram(z, n, 0), u, v, n, n);
    } else {
      hide Gram;
      QuadOfGram(z, u, v, n, m - 1);
      QuadAddsRow(z, u, v, n, m, n);
    }
  }

  lemma {:induction false} DotOfZero(row: Vector, v: Vector, top: nat)
    requires top <= |row| && top <= |v| && forall k :: 0 <= k < top ==> row[k] == 0.0
    ensures Dot(row, v, top) == 0.0
  {
    if top > 0 { DotOfZero(row, v, top - 1); }
  }

  lemma {:induction false} QuadOfZero(g: Matrix, u: Vector, v: Vector, n: nat, top: nat)
    requires Square(g, n) && |u| == n && |v| == n && top <= n
    requires forall j, k :: 0 <= j < n && 0 <= k < n ==> g[j][k] == 0.0
    ensures Quad(g, u, v, n, top) == 0.0
  {
    if top > 0 {
      QuadOfZero(g, u, v, n, top - 1);
      DotOfZero(g[top - 1], v, n);
      assert u[top - 1] * 0.0 == 0.0;
    }
  }

  lemma {:induction false} DotChanged(row: Vector, j: nat, x: real, v: Vector, top: nat)
    requires top <= |row| && top <= |v| && j < |row|
    ensures Dot(row[j := row[j] + x], v, top) == Dot(row, v, top) + if j < top then Times(x, v[j]) else 0.0
  {
    if top > 0 {
      DotChanged(row, j, x, v, top - 1);
      if j == top - 1 { assert (row[j] + x) * v[j] == row[j] * v[j] + x * v[j]; }
    }
  }

  lemma {:induction false} QuadShifted(g: Matrix, u: Vector, v: Vector, penalty: real, n: nat, top: nat)
    requires Square(g, n) && |u| == n && |v| == n && top <= n
    ensures Quad(Shifted(g, n, penalty), u, v, n, top) == Quad(g, u, v, n, top) + Times(penalty, Dot(u, v, top))
  {
    hide Times, Dot;
    if top == 0 {
      TimesZero(penalty);
      DotNone(u, v);
    } else {
      var j := top - 1;
      DotLast(u, v, top);
      QuadShifted(g, u, v, penalty, n, j);
      DotChanged(g[j], j, penalty, v, n);
      ShiftStep(Quad(g, u, v, n, j), penalty, Dot(u, v, j), u[j], Dot(g[j], v, n), v[j]);
    }
  }

  lemma ShiftStep(q: real, penalty: real, d: real, u: real, g: real, v: real)
    ensures (q + Times(penalty, d)) + Times(u, g + Times(penalty, v)) == (q + Times(u, g))
      + Times(penalty, d + Times(u, v))
  {}

  // ----- the linear terms -----

  /** sum over the first m rows of (y_i - c)(z_i · d) */
  function Weighted(z: Matrix, y: Vector, c: real, d: Vector, n: nat, m: nat): real
    requires Table(z, n) && |d| == n && m <= |z| == |y|
  {
    if m == 0 then 0.0 else Weighted(z, y, c, d, n, m - 1) + Times(y[m - 1] - c, Dot(z[m - 1], d, n))
  }

  lemma {:induction false} MomentsDot(z: Matrix, y: Vector, c: real, d: Vector, n: nat, m: nat)
    requires Table(z, n) && |d| == n && m <= |z| == |y|
    ensures Dot(Moments(z, y, c, n, m), d, n) == Weighted(z, y, c, d, n, m)
  {
    if m == 0 {
      DotOfZero(Moments(z, y, c, n, 0), d, n);
    } else {
      MomentsDot(z, y, c, d, n, m - 1);
      MomentsRow(z, y, c, n, m);
      hide Moments;
      DotAccumulate(Moments(z, y, c, n, m - 1), y[m - 1] - c, z[m - 1], Moments(z, y, c, n, m), d, n, n);
    }
  }

  lemma MomentsRow(z: Matrix, y: Vector, c: real, n: nat, m: nat)
    requires Table(z, n) && 0 < m <= |z| == |y|
    ensures forall k :: 0 <= k < n ==>
      Moments(z, y, c, n, m)[k] == Moments(z, y, c, n, m - 1)[k] + Times(z[m - 1][k], y[m - 1] - c)
    ensures forall k :: 0 <= k < n ==>
      Moments(z, y, c, n, m)[k] == Moments(z, y, c, n, m - 1)[k] + Times(y[m - 1] - c, z[m - 1][k])
  {}

  /** sum over the first m rows of z_i · d */
  function RowDots(z: Matrix, d: Vector, n: nat, m: nat): real
    requires Table(z, n) && |d| == n && m <= |z|
  {
    if m == 0 then 0.0 else RowDots(z, d, n, m - 1) + Dot(z[m - 1], d, n)
  }

  function ColumnTotals(z: Matrix, n: nat, m: nat): (t: Vector)
    requires Table(z, n) && m <= |z|
    ensures |t| == n
  {
    seq(n, j requires 0 <= j < n => ColumnTotal(z, n, j, m))
  }

  lemma {:induction false} RowDotsByColumn(z: Matrix, d: Vector, n: nat, m: nat)
    requires Table(z, n) && |d| == n && m <= |z|
    ensures RowDots(z, d, n, m) == Dot(ColumnTotals(z, n, m), d, n)
  {
    if m == 0 {
      DotOfZero(ColumnTotals(z, n, 0), d, n);
    } else {
      RowDotsByColumn(z, d, n, m - 1);
      DotAccumulate(ColumnTotals(z, n, m - 1), 1.0, z[m - 1], ColumnTotals(z, n, m), d, n, n);
    }
  }

  lemma CentredRowDots(z: Matrix, d: Vector, n: nat)
    requires Table(z, n) && |d| == n && Centred(z, n)
    ensures RowDots(z, d, n, |z|) == 0.0
  {
    RowDotsByColumn(z, d, n, |z|);
    DotOfZero(ColumnTotals(z, n, |z|), d, n);
  }

  // ----- the objective around the solution -----

  /** sum over the first m rows of (e + z_i · d)^2 */
  function Spread(z: Matrix, e: real, d: Vector, n: nat, m: nat): real
    requires Table(z, n) && |d| == n && m <= |z|
  {
    if m == 0 then 0.0 else Spread(z, e, d, n, m - 1) + Sq(e + Dot(z[m - 1], d, n))
  }

  lemma {:induction false} SpreadNonNegative(z: Matrix, e: real, d: Vector, n: nat, m: nat)
    requires Table(z, n) && |d| == n && m <= |z|
    ensures Spread(z, e, d, n, m) >= 0.0
    ensures m > 0 && Spread(z, e, d, n, m) == 0.0 ==> e + Dot(z[m - 1], d, n) == 0.0
  {
    if m > 0 {
      SpreadNonNegative(z, e, d, n, m - 1);
      SquareNonNegative(e + Dot(z[m - 1], d, n));
      SquareZero(e + Dot(z[m - 1], d, n));
    }
  }

  lemma SquareZero(x: real)
    ensures Sq(x) == 0.0 ==> x == 0.0
  {
    if x != 0.0 { assert x == (x * x) / x; }
  }

  lemma {:induction false} ErrorAround(z: Matrix, y: Vector, c: real, b: Vector, e: real, d: Vector, n: nat, m: nat)
    requires Table(z, n) && |b| == n && |d| == n && m <= |z| == |y|
    ensures SquaredError(z, y, c + e, Plus(b, d, n), n, m)
         == SquaredError(z, y, c, b, n, m)
            - 2.0 * (Times(e, Total(y, m) - Times(m as real, c) - RowDots(z, b, n, m))
              + Weighted(z, y, c, d, n, m) - Cross(z, d, b, n, m))
            + Spread(z, e, d, n, m)
  {
    if m > 0 {
      hide Dot, Plus, Sq, Times;
      var i := m - 1;
      ErrorAround(z, y, c, b, e, d, n, i);
      DotPlus(z[i], b, d, n, n);
      ErrorStep(SquaredError(z, y, c, b, n, i), y[i], c, Dot(z[i], b, n), Dot(z[i], d, n), e, Total(y, i), i as real,
                RowDots(z, b, n, i), Weighted(z, y, c, d, n, i), Cross(z, d, b, n, i), Spread(z, e, d, n, i));
    }
  }

  lemma ErrorStep(se: real, y: real, c: real, zb: real, zd: real, e: real, t: real, i: real, rd: real, w: real,
                  x: real, s: real)
    ensures (se - 2.0 * (Times(e, t - Times(i, c) - rd) + w - x) + s) + Sq(y - (c + e) - (zb + zd))
      == (se + Sq(y - c - zb))
         - 2.0 * (Times(e, (t + y) - Times(i + 1.0, c) - (rd + zb)) + (w + Times(y - c, zd)) - (x + Times(zd, zb)))
         + (s + Sq(e + zd))
  {
    var r := y - c - zb;
    assert Sq(r - (e + zd)) == Sq(r) - 2.0 * (r * (e + zd)) + Sq(e + zd);
    assert r * (e + zd) == e * r + (y - c) * zd - zb * zd;
    assert e * ((t + y) - (i + 1.0) * c - (rd + zb)) == e * (t - i * c - rd) + e * r by {
      assert (t + y) - (i + 1.0) * c - (rd + zb) == (t - i * c - rd) + r;
    }
  }

  lemma {:induction false} NormalEquations(g: Matrix, r: Vector, b: Vector, d: Vector, n: nat, top: nat)
    requires Square(g, n) && |r| == n && |d| == n && top <= n && Solves(g, r, n, b)
    ensures Quad(g, d, b, n, top) == Dot(r, d, top)
  {
    if top > 0 {
      NormalEquations(g, r, b, d, n, top - 1);
      assert Dot(g[top - 1], b, n) == r[top - 1];
    }
  }

  lemma NormAround(b: Vector, d: Vector, n: nat)
    requires |b| == n && |d| == n
    ensures Dot(Plus(b, d, n), Plus(b, d, n), n) == Dot(b, b, n) + 2.0 * Dot(d, b, n) + Dot(d, d, n)
  {
    var s := Plus(b, d, n);
    DotPlus(s, b, d, n, n);
    DotSymmetric(s, b, n);
    DotSymmetric(s, d, n);
    DotPlus(b, b, d, n, n);
    DotPlus(d, b, d, n, n);
    DotSymmetric(b, d, n);
  }

  /** How much worse any other intercept and coefficients are than the solution of the ridge system. */
  lemma RidgeExcess(z: Matrix, y: Vector, mean: real, b: Vector, penalty: real, e: real, d: Vector, n: nat)
    requires Table(z, n) && |z| == |y| && |d| == n && Centred(z, n) && Total(y, |y|) == Times(|y| as real, mean)
    requires Solves(Shifted(Gram(z, n, |z|), n, penalty), Moments(z, y, mean, n, |z|), n, b)
    ensures Objective(z, y, mean + e, Plus(b, d, n), penalty, n)
         == Objective(z, y, mean, b, penalty, n) + Spread(z, e, d, n, |z|) + penalty * Dot(d, d, n)
  {
    hide Gram, Moments, Shifted, Plus, Solves, Dot, SquaredError, Spread, Cross, Weighted, RowDots, Total, Centred;
    var m := |z|;
    var g, r := Gram(z, n, m), Moments(z, y, mean, n, m);
    BetaLength(g, r, b, penalty, n);
    ErrorAround(z, y, mean, b, e, d, n, m);
    CentredRowDots(z, b, n);
    NormalEquations(Shifted(g, n, penalty), r, b, d, n, n);
    QuadShifted(g, d, b, penalty, n, n);
    QuadOfGram(z, d, b, n, m);
    MomentsDot(z, y, mean, d, n, m);
    assert Weighted(z, y, mean, d, n, m) - Cross(z, d, b, n, m) == penalty * Dot(d, b, n);
    NormAround(b, d, n);
    PenaltyTerm(penalty, Dot(b, b, n), Dot(d, b, n), Dot(d, d, n));
    assert Times(e, Total(y, m) - Times(m as real, mean) - RowDots(z, b, n, m)) == 0.0;
  }

  lemma BetaLength(g: Matrix, r: Vector, b: Vector, penalty: real, n: nat)
    requires Square(g, n) && |r| == n && Solves(Shifted(g, n, penalty), r, n, b)
    ensures |b| == n
  {}

  lemma PenaltyTerm(penalty: real, bb: real, db: real, dd: real)
    ensures penalty * (bb + 2.0 * db + dd) == penalty * bb + 2.0 * (penalty * db) + penalty * dd
  {}

  // ----- when the solver refuses -----

  lemma {:induction false} QuadBounded(a: Matrix, v: Vector, n: nat, top: nat)
    requires Square(a, n) && |v| == n && top <= n && forall i :: 0 <= i < n ==> Abs(Dot(a[i], v, n)) <= EPSILON
    ensures Quad(a, v, v, n, top) <= EPSILON * (Dot(v, v, top) + top as real) / 2.0
  {
    if top > 0 {
      QuadBounded(a, v, n, top - 1);
      ProductBounded(v[top - 1], Dot(a[top - 1], v, n));
    }
  }

  lemma ProductBounded(x: real, s: real)
    requires Abs(s) <= EPSILON
    ensures x * s <= EPSILON * (x * x + 1.0) / 2.0
  {
    assert x <= (x * x + 1.0) / 2.0 by {
      SquareNonNegative(x - 1.0);
      assert (x - 1.0) * (x - 1.0) == x * x - 2.0 * x + 1.0;
    }
    assert -x <= (x * x + 1.0) / 2.0 by {
      SquareNonNegative(x + 1.0);
      assert (x + 1.0) * (x + 1.0) == x * x + 2.0 * x + 1.0;
    }
    var ax := Abs(x);
    assert x * s <= ax * EPSILON by { AbsProduct(x, s); }
    ScaleMono(ax, (x * x + 1.0) / 2.0, EPSILON);
  }

  lemma AbsProduct(x: real, s: real)
    requires Abs(s) <= EPSILON
    ensures x * s <= Abs(x) * EPSILON
  {
    if x >= 0.0 { ScaleMono(s, EPSILON, x); } else { ScaleMono(-s, EPSILON, -x); assert (-s) * (-x) == x * s; }
  }

  lemma ScaleMono(a: real, b: real, k: real)
    requires a <= b && k >= 0.0
    ensures a * k <= b * k
  {}

  /** The ridge system is refused only for a tiny penalty: a vector with a unit component that it
      nearly annihilates bounds penalty by 10^-14 (n + 1) / 2. */
  lemma RefusalBoundsPenalty(z: Matrix, penalty: real, n: nat, v: Vector)
    requires Table(z, n) && NearlySingular(Shifted(Gram(z, n, |z|), n, penalty), n, v)
    ensures penalty <= 0.00000000000001 * (n as real + 1.0) / 2.0
  {
    hide Gram, Shifted, Cross;
    var g := Gram(z, n, |z|);
    QuadBounded(Shifted(g, n, penalty), v, n, n);
    QuadShifted(g, v, v, penalty, n, n);
    QuadOfGram(z, v, v, n, |z|);
    CrossSelf(z, v, n, |z|);
    DotSelf(v, n);
    var k :| 0 <= k < n && v[k] == 1.0;
    PenaltyBound(penalty, Dot(v, v, n), n as real);
  }

  lemma {:induction false} CrossSelf(z: Matrix, v: Vector, n: nat, m: nat)
    requires Table(z, n) && |v| == n && m <= |z|
    ensures Cross(z, v, v, n, m) >= 0.0
  {
    if m > 0 { CrossSelf(z, v, n, m - 1); SquareNonNegative(Dot(z[m - 1], v, n)); }
  }

  lemma PenaltyBound(penalty: real, d: real, n: real)
    requires d >= 1.0 && n >= 0.0 && penalty * d <= EPSILON * (d + n) / 2.0
    ensures penalty <= EPSILON * (n + 1.0) / 2.0
  {
    var bound := EPSILON * (n + 1.0) / 2.0;
    ScaleMono(1.0, d, n);
    assert bound * d >= penalty * d by {
      assert bound * d == EPSILON * (n * d + d) / 2.0;
    }
    if penalty > bound { StrictScale(bound, penalty, d); }
  }

  lemma StrictScale(a: real, b: real, k: real)
    requires a < b && k > 0.0
    ensures a * k < b * k
  {}

  // ----- the optimum -----

  /** (c, b) is the one minimiser of the penalised squared error over all intercepts and coefficients. */
  ghost predicate OnlyMinimum(z: Matrix, y: Vector, c: real, b: Vector, penalty: real, n: nat)
    requires Table(z, n) && |z| == |y|
  {
    && |b| == n
    && forall e: real, v: Vector :: |v| == n ==>
      && Objective(z, y, c, b, penalty, n) <= Objective(z, y, e, v, penalty, n)
      && (Objective(z, y, c, b, penalty, n) == Objective(z, y, e, v, penalty, n) ==> e == c && v == b)
  }

  function Difference(v: Vector, b: Vector, n: nat): (d: Vector)
    requires |v| == n && |b| == n
    ensures |d| == n && Plus(b, d, n) == v
  {
    seq(n, j requires 0 <= j < n => v[j] - b[j])
  }

  /** The one solution of the normal equations is the only minimum; with a positive penalty every
      solution is. */
  lemma RidgeOptimal(z: Matrix, y: Vector, mean: real, b: Vector, penalty: real, n: nat)
    requires Table(z, n) && |z| == |y| > 0 && Centred(z, n) && Total(y, |y|) == Times(|y| as real, mean)
      && penalty >= 0.0
    requires Solves(Shifted(Gram(z, n, |z|), n, penalty), Moments(z, y, mean, n, |z|), n, b)
    requires penalty == 0.0 ==>
      forall v :: Solves(Shifted(Gram(z, n, |z|), n, penalty), Moments(z, y, mean, n, |z|), n, v) ==> v == b
    ensures OnlyMinimum(z, y, mean, b, penalty, n)
  {
    hide Gram, Moments, Objective, Dot, Spread, Total, Centred, Solves, Shifted;
    BetaLength(Gram(z, n, |z|), Moments(z, y, mean, n, |z|), b, penalty, n);
    forall c: real, v: Vector | |v| == n
      ensures Objective(z, y, mean, b, penalty, n) <= Objective(z, y, c, v, penalty, n)
      ensures Objective(z, y, mean, b, penalty, n) == Objective(z, y, c, v, penalty, n) ==> c == mean && v == b
    {
      var e, d := c - mean, Difference(v, b, n);
      RidgeExcess(z, y, mean, b, penalty, e, d, n);
      SpreadNonNegative(z, e, d, n, |z|);
      if penalty == 0.0 {
        if Spread(z, e, d, n, |z|) == 0.0 { SecondSolution(z, Moments(z, y, mean, n, |z|), b, e, d, n); }
      } else {
        ExcessPositive(z, e, d, penalty, n);
        if Spread(z, e, d, n, |z|) + penalty * Dot(d, d, n) == 0.0 {
          assert v == b by { assert forall j :: 0 <= j < n ==> v[j] == b[j] + d[j]; }
        }
      }
    }
  }

  // ----- without a penalty -----

  /** No spread: the deviations of every row cancel e. */
  lemma {:induction false} NoSpread(z: Matrix, e: real, d: Vector, n: nat, m: nat)
    requires Table(z, n) && |d| == n && m <= |z| && Spread(z, e, d, n, m) == 0.0
    ensures RowDots(z, d, n, m) == Times(m as real, -e)
    ensures forall i :: 0 <= i < m ==> Dot(z[i], d, n) == -e
  {
    hide Dot;
    if m > 0 {
      SpreadNonNegative(z, e, d, n, m);
      SpreadNonNegative(z, e, d, n, m - 1);
      NoSpread(z, e, d, n, m - 1);
    }
  }

  /** A vector that every row annihilates is annihilated by the Gram matrix. */
  lemma {:induction false} GramAnnihilates(z: Matrix, d: Vector, n: nat, m: nat, j: nat)
    requires Table(z, n) && |d| == n && m <= |z| && j < n
    requires forall i :: 0 <= i < m ==> Dot(z[i], d, n) == 0.0
    ensures Dot(Gram(z, n, m)[j], d, n) == 0.0
  {
    if m == 0 {
      DotOfZero(Gram(z, n, 0)[j], d, n);
    } else {
      hide Gram, Dot;
      GramAnnihilates(z, d, n, m - 1, j);
      GramRow(z, n, m, j);
      DotAccumulate(Gram(z, n, m - 1)[j], z[m - 1][j], z[m - 1], Gram(z, n, m)[j], d, n, n);
      TimesZero(z[m - 1][j]);
    }
  }

  /** Another minimum without a penalty would be another solution of the normal equations. */
  lemma SecondSolution(z: Matrix, r: Vector, b: Vector, e: real, d: Vector, n: nat)
    requires Table(z, n) && |z| > 0 && |r| == n && |d| == n && Centred(z, n)
    requires Solves(Shifted(Gram(z, n, |z|), n, 0.0), r, n, b) && |b| == n && Spread(z, e, d, n, |z|) == 0.0
    ensures e == 0.0 && Solves(Shifted(Gram(z, n, |z|), n, 0.0), r, n, Plus(b, d, n))
  {
    hide Dot, Gram, Shifted, Centred, Spread, RowDots, Plus;
    var g := Gram(z, n, |z|);
    NoSpread(z, e, d, n, |z|);
    CentredRowDots(z, d, n);
    PositivePenalty(|z| as real, if e >= 0.0 then e else -e);
    forall j | 0 <= j < n
      ensures Dot(Shifted(g, n, 0.0)[j], Plus(b, d, n), n) == r[j]
    {
      GramAnnihilates(z, d, n, |z|, j);
      ShiftedByZero(g, n);
      DotPlus(g[j], b, d, n, n);
    }
  }

  lemma ShiftedByZero(g: Matrix, n: nat)
    requires Square(g, n)
    ensures Shifted(g, n, 0.0) == g
  {
    forall j | 0 <= j < n
      ensures Shifted(g, n, 0.0)[j] == g[j]
    {}
  }

  lemma ExcessPositive(z: Matrix, e: real, d: Vector, penalty: real, n: nat)
    requires Table(z, n) && |d| == n && |z| > 0 && penalty > 0.0
    ensures Spread(z, e, d, n, |z|) + penalty * Dot(d, d, n) >= 0.0
    ensures Spread(z, e, d, n, |z|) + penalty * Dot(d, d, n) == 0.0 ==>
      e == 0.0 && forall j :: 0 <= j < n ==> d[j] == 0.0
  {
    SpreadNonNegative(z, e, d, n, |z|);
    DotSelf(d, n);
    ScaleMono(0.0, Dot(d, d, n), penalty);
    if Spread(z, e, d, n, |z|) + penalty * Dot(d, d, n) == 0.0 {
      PositivePenalty(penalty, Dot(d, d, n));
      forall j | 0 <= j < n ensures d[j] == 0.0 {
        SquareNonNegative(d[j]);
        SquareZero(d[j]);
      }
      DotOfZero(d, z[|z| - 1], n);
      DotSymmetric(d, z[|z| - 1], n);
    }
  }

  lemma PositivePenalty(penalty: real, q: real)
    requires penalty > 0.0 && q >= 0.0
    ensures penalty * q == 0.0 ==> q == 0.0
  {
    if q > 0.0 { StrictScale(0.0, q, penalty); }
  }

  // ----- standardisation -----

  function Standardised(row: Vector, means: Vector, scales: Vector, n: nat): (s: Vector)
    requires |row| == |means| == |scales| == n && forall j :: 0 <= j < n ==> scales[j] > 0.0
    ensures |s| == n
  {
    seq(n, j requires 0 <= j < n => (row[j] - means[j]) / scales[j])
  }

  function StandardTable(x: Matrix, means: Vector, scales: Vector, n: nat): (z: Matrix)
    requires Table(x, n) && |means| == |scales| == n && forall j :: 0 <= j < n ==> scales[j] > 0.0
    ensures Table(z, n) && |z| == |x|
  {
    seq(|x|, i requires 0 <= i < |x| => Standardised(x[i], means, scales, n))
  }

  lemma {:induction false} StandardColumn(x: Matrix, means: Vector, scales: Vector, n: nat, j: nat, m: nat)
    requires Table(x, n) && |means| == |scales| == n && forall j :: 0 <= j < n ==> scales[j] > 0.0
    requires j < n && m <= |x|
    ensures ColumnTotal(StandardTable(x, means, scales, n), n, j, m)
      == (ColumnTotal(x, n, j, m) - Times(m as real, means[j])) / scales[j]
  {
    if m > 0 {
      StandardColumn(x, means, scales, n, j, m - 1);
      StandardTerm(ColumnTotal(x, n, j, m - 1), (m - 1) as real, means[j], x[m - 1][j], scales[j]);
    }
  }

  lemma StandardTerm(t: real, m: real, mean: real, x: real, scale: real)
    requires scale > 0.0
    ensures (t - Times(m, mean)) / scale + (x - mean) / scale == ((t + x) - Times(m + 1.0, mean)) / scale
  {
    assert Times(m + 1.0, mean) == Times(m, mean) + mean;
  }

  lemma StandardCentred(x: Matrix, means: Vector, scales: Vector, n: nat)
    requires Table(x, n) && |means| == |scales| == n && forall j :: 0 <= j < n ==> scales[j] > 0.0
    requires forall j :: 0 <= j < n ==> ColumnTotal(x, n, j, |x|) == Times(|x| as real, means[j])
    ensures Centred(StandardTable(x, means, scales, n), n)
  {
    forall j | 0 <= j < n ensures ColumnTotal(StandardTable(x, means, scales, n), n, j, |x|) == 0.0 {
      StandardColumn(x, means, scales, n, j, |x|);
    }
  }

  // ----- the fit -----

  datatype Model = Fitted(means: Vector, scales: Vector, yMean: real, beta: Vector) | Refused

  /** sum over the first m rows of (x_ij - mean)^2 */
  function Variation(x: Matrix, n: nat, j: nat, mean: real, m: nat): real
    requires Table(x, n) && j < n && m <= |x|
  {
    if m == 0 then 0.0 else Variation(x, n, j, mean, m - 1) + Sq(x[m - 1][j] - mean)
  }

  lemma {:induction false} VariationNonNegative(x: Matrix, n: nat, j: nat, mean: real, m: nat)
    requires Table(x, n) && j < n && m <= |x|
    ensures Variation(x, n, j, mean, m) >= 0.0
  {
    if m > 0 {
      VariationNonNegative(x, n, j, mean, m - 1);
      SquareNonNegative(x[m - 1][j] - mean);
    }
  }

  function Variance(x: Matrix, n: nat, j: nat, mean: real): real
    requires Table(x, n) && |x| > 0 && j < n
  {
    Variation(x, n, j, mean, |x|) / |x| as real
  }

  /** The root of a variance, or one when there is no variation. */
  predicate IsScale(variance: real, scale: real) {
    if variance > 0.0 then scale > 0.0 && scale * scale == variance else scale == 1.0
  }

  method ColumnScales(x: Matrix, n: nat, means: Vector, root: real -> real) returns (scales: Vector)
    requires Table(x, n) && |x| > 0 && |means| == n && IsRoot(root)
    ensures |scales| == n && forall j :: 0 <= j < n ==>
      scales[j] > 0.0 && IsScale(Variance(x, n, j, means[j]), scales[j])
  {
    scales := [];
    for j := 0 to n
      invariant |scales| == j
      invariant forall q :: 0 <= q < j ==> scales[q] > 0.0 && IsScale(Variance(x, n, q, means[q]), scales[q])
    {
      var variance := 0.0;
      for i := 0 to |x|
        invariant variance == Variation(x, n, j, means[j], i)
      {
        var delta := x[i][j] - means[j];
        variance := variance + delta * delta;
      }
      VariationNonNegative(x, n, j, means[j], |x|);
      var scale := root(variance / |x| as real);
      QuotientNonNegative(variance, |x| as real);
      RootIsScale(variance / |x| as real, scale);
      scales := scales + [if scale > 0.0 then scale else 1.0];
    }
  }

  lemma RootIsScale(variance: real, scale: real)
    requires variance >= 0.0 && scale >= 0.0 && scale * scale == variance
    ensures IsScale(variance, if scale > 0.0 then scale else 1.0)
  {
    if scale > 0.0 { StrictScale(0.0, scale, scale); }
  }

  lemma QuotientNonNegative(a: real, m: real)
    requires a >= 0.0 && m > 0.0
    ensures a / m >= 0.0
  {}

  method ColumnMeans(x: Matrix, n: nat) returns (means: Vector)
    requires Table(x, n) && |x| > 0
    ensures |means| == n
    ensures forall j :: 0 <= j < n ==> ColumnTotal(x, n, j, |x|) == Times(|x| as real, means[j])
  {
    means := [];
    for j := 0 to n
      invariant |means| == j
      invariant forall q :: 0 <= q < j ==> ColumnTotal(x, n, q, |x|) == Times(|x| as real, means[q])
    {
      var sum := 0.0;
      for i := 0 to |x|
        invariant sum == ColumnTotal(x, n, j, i)
      {
        sum := sum + x[i][j];
      }
      Quotient(sum, |x| as real);
      means := means + [sum / (|x| as real)];
    }
  }

  lemma Quotient(a: real, m: real)
    requires m != 0.0
    ensures Times(m, a / m) == a
  {}

  method AddRow(gram: Matrix, rhs: Vector, z: Vector, residual: real, n: nat) returns (g: Matrix, r: Vector)
    requires Square(gram, n) && |rhs| == n && |z| == n
    ensures Square(g, n) && forall j, k :: 0 <= j < n && 0 <= k < n ==> g[j][k] == gram[j][k] + Times(z[j], z[k])
    ensures |r| == n && forall j :: 0 <= j < n ==> r[j] == rhs[j] + Times(z[j], residual)
  {
    hide Times;
    g, r := gram, rhs;
    for j := 0 to n
      invariant |r| == n
      invariant forall q :: 0 <= q < n ==> r[q] == if q < j then rhs[q] + Times(z[q], residual) else rhs[q]
    {
      r := r[j := r[j] + Times(z[j], residual)];
    }
    for j := 0 to n
      invariant Square(g, n)
      invariant forall q :: j <= q < n ==> g[q] == gram[q]
      invariant forall q, k :: 0 <= q < j && 0 <= k < n ==> g[q][k] == gram[q][k] + Times(z[q], z[k])
    {
      var row := g[j];
      for k := 0 to n
        invariant |row| == n
        invariant forall q :: 0 <= q < n ==> row[q] == if q < k then gram[j][q] + Times(z[j], z[q]) else gram[j][q]
      {
        row := row[k := row[k] + Times(z[j], z[k])];
      }
      g := g[j := row];
    }
  }

  /** A fit is the one minimiser of the penalised error of the standardised problem; a refusal
      means the penalty was at most 10^-14 (n + 1) / 2. */
  method FitRidge(x: Matrix, y: Vector, n: nat, root: real -> real, penalty: real) returns (model: Model)
    requires Table(x, n) && |x| == |y| > 0 && penalty >= 0.0 && IsRoot(root)
    ensures model.Fitted? ==>
      && |model.means| == |model.scales| == n
      && (forall j :: 0 <= j < n ==>
        model.scales[j] > 0.0 && IsScale(Variance(x, n, j, model.means[j]), model.scales[j]))
      && (forall j :: 0 <= j < n ==> ColumnTotal(x, n, j, |x|) == Times(|x| as real, model.means[j]))
      && Total(y, |y|) == Times(|y| as real, model.yMean)
      && OnlyMinimum(StandardTable(x, model.means, model.scales, n), y, model.yMean, model.beta, penalty, n)
    ensures model.Refused? ==> penalty <= 0.00000000000001 * (n as real + 1.0) / 2.0
  {
    hide OnlyMinimum, Solves, NearlySingular, Dot, Gram, Moments, Shifted, StandardTable, Times, Centred, IsScale,
      IsRoot, Variance;
    var yMean := 0.0;
    for i := 0 to |y|
      invariant yMean == Total(y, i)
    {
      yMean := yMean + y[i];
    }
    Quotient(yMean, |y| as real);
    yMean := yMean / (|y| as real);
    var means := ColumnMeans(x, n);
    var scales := ColumnScales(x, n, means, root);
    StandardCentred(x, means, scales, n);
    var gram, rhs := Accumulate(x, y, n, means, scales, yMean);
    gram := AddPenalty(gram, n, penalty);
    ghost var z := StandardTable(x, means, scales, n);
    var solution := SolveLinear(gram, rhs);
    match solution
    case Singular =>
      ghost var v :| NearlySingular(gram, n, v);
      RefusalBoundsPenalty(z, penalty, n, v);
      model := Refused;
    case Solved(beta) =>
      assert Solves(gram, rhs, n, beta);
      RidgeOptimal(z, y, yMean, beta, penalty, n);
      model := Fitted(means, scales, yMean, beta);
  }

  method Accumulate(x: Matrix, y: Vector, n: nat, means: Vector, scales: Vector, yMean: real)
    returns (gram: Matrix, rhs: Vector)
    requires Table(x, n) && |x| == |y| && |means| == |scales| == n && forall j :: 0 <= j < n ==> scales[j] > 0.0
    ensures gram == Gram(StandardTable(x, means, scales, n), n, |x|)
    ensures rhs == Moments(StandardTable(x, means, scales, n), y, yMean, n, |x|)
  {
    hide Gram, Moments, Times;
    ghost var z := StandardTable(x, means, scales, n);
    gram := seq(n, j => seq(n, k => 0.0));
    rhs := seq(n, j => 0.0);
    NoRows(z, y, yMean, n, gram, rhs);
    for i := 0 to |x|
      invariant gram == Gram(z, n, i) && rhs == Moments(z, y, yMean, n, i)
    {
      var row := Standardised(x[i], means, scales, n);
      GramRows(z, n, i + 1);
      MomentsRow(z, y, yMean, n, i + 1);
      gram, rhs := AddRow(gram, rhs, row, y[i] - yMean, n);
      SameEntries(gram, Gram(z, n, i + 1), n);
      assert rhs == Moments(z, y, yMean, n, i + 1);
    }
  }

  lemma NoRows(z: Matrix, y: Vector, c: real, n: nat, gram: Matrix, rhs: Vector)
    requires Table(z, n) && |z| == |y|
    requires Square(gram, n) && forall j, k :: 0 <= j < n && 0 <= k < n ==> gram[j][k] == 0.0
    requires |rhs| == n && forall j :: 0 <= j < n ==> rhs[j] == 0.0
    ensures gram == Gram(z, n, 0) && rhs == Moments(z, y, c, n, 0)
  {
    SameEntries(gram, Gram(z, n, 0), n);
  }

  lemma GramRows(z: Matrix, n: nat, m: nat)
    requires Table(z, n) && 0 < m <= |z|
    ensures forall j, k :: 0 <= j < n && 0 <= k < n ==>
      Gram(z, n, m)[j][k] == Gram(z, n, m - 1)[j][k] + Times(z[m - 1][j], z[m - 1][k])
  {
    forall j, k | 0 <= j < n && 0 <= k < n
      ensures Gram(z, n, m)[j][k] == Gram(z, n, m - 1)[j][k] + Times(z[m - 1][j], z[m - 1][k])
    {
      GramRow(z, n, m, j);
    }
  }

  method AddPenalty(plain: Matrix, n: nat, penalty: real) returns (gram: Matrix)
    requires Square(plain, n)
    ensures gram == Shifted(plain, n, penalty)
  {
    gram := plain;
    for j := 0 to n
      invariant |gram| == n && forall q :: 0 <= q < n ==>
        gram[q] == if q < j then Shifted(plain, n, penalty)[q] else plain[q]
    {
      gram := gram[j := gram[j][j := gram[j][j] + penalty]];
    }
    assert gram == Shifted(plain, n, penalty);
  }

  lemma SameEntries(g: Matrix, h: Matrix, n: nat)
    requires Square(g, n) && Square(h, n) && forall j, k :: 0 <= j < n && 0 <= k < n ==> g[j][k] == h[j][k]
    ensures g == h
  {
    forall j | 0 <= j < n ensures g[j] == h[j] {}
  }
}
