// Gauss-Jordan elimination with row pivoting (solve_linear in src/research/context_phase2.cpp),
// over the reals.
module LinearSolver {
  type Vector = seq<real>
  type Matrix = seq<seq<real>>

  const EPSILON: real := 0.00000000000001

  function Abs(x: real): real { if x < 0.0 then -x else x }

  function Dot(u: Vector, v: Vector, n: nat): real
    requires n <= |u| && n <= |v|
  {
    if n == 0 then 0.0 else Dot(u, v, n - 1) + u[n - 1] * v[n - 1]
  }

  predicate Square(m: Matrix, n: nat) {
    |m| == n && forall i :: 0 <= i < n ==> |m[i]| == n
  }

  ghost predicate Solves(m: Matrix, b: Vector, n: nat, x: Vector)
    requires Square(m, n) && |b| == n
  {
    |x| == n && forall i :: 0 <= i < n ==> Dot(m[i], x, n) == b[i]
  }

  // ----- row operations -----

  function Scaled(row: Vector, d: real): (s: Vector)
    requires d != 0.0
    ensures |s| == |row|
  {
    seq(|row|, c requires 0 <= c < |row| => row[c] / d)
  }

  function Minus(row: Vector, f: real, other: Vector): (s: Vector)
    requires |row| == |other|
    ensures |s| == |row|
  {
    seq(|row|, c requires 0 <= c < |row| => row[c] - f * other[c])
  }

  function Swapped<T>(s: seq<T>, i: nat, j: nat): (t: seq<T>)
    requires i < |s| && j < |s|
    ensures |t| == |s| && t[i] == s[j] && t[j] == s[i]
    ensures forall k :: 0 <= k < |s| && k != i && k != j ==> t[k] == s[k]
  {
    s[i := s[j]][j := s[i]]
  }

  /** Normalise row k and clear column k from every other row. */
  function PivotStep(m: Matrix, n: nat, k: nat): (p: Matrix)
    requires Square(m, n) && k < n && m[k][k] != 0.0
    ensures Square(p, n)
  {
    seq(n, r requires 0 <= r < n =>
      if r == k then Scaled(m[k], m[k][k]) else Minus(m[r], m[r][k], Scaled(m[k], m[k][k])))
  }

  function PivotRight(m: Matrix, b: Vector, n: nat, k: nat): (q: Vector)
    requires Square(m, n) && |b| == n && k < n && m[k][k] != 0.0
    ensures |q| == n
  {
    seq(n, r requires 0 <= r < n => if r == k then b[k] / m[k][k] else b[r] - m[r][k] * (b[k] / m[k][k]))
  }

  lemma {:induction false} DotScaled(row: Vector, d: real, x: Vector, n: nat)
    requires d != 0.0 && n <= |row| && n <= |x|
    ensures Dot(Scaled(row, d), x, n) == Dot(row, x, n) / d
  {
    if n > 0 {
      DotScaled(row, d, x, n - 1);
      ScaleTerm(row[n - 1], x[n - 1], d, Dot(row, x, n - 1));
    }
  }

  lemma ScaleTerm(a: real, x: real, d: real, s: real)
    requires d != 0.0
    ensures s / d + (a / d) * x == (s + a * x) / d
  {}

  lemma {:induction false} DotMinus(row: Vector, f: real, other: Vector, x: Vector, n: nat)
    requires |row| == |other| && n <= |row| && n <= |x|
    ensures Dot(Minus(row, f, other), x, n) == Dot(row, x, n) - f * Dot(other, x, n)
  {
    if n > 0 {
      DotMinus(row, f, other, x, n - 1);
      MinusTerm(row[n - 1], f, other[n - 1], x[n - 1], Dot(other, x, n - 1));
    }
  }

  lemma MinusTerm(a: real, f: real, o: real, x: real, s: real)
    ensures (a - f * o) * x == a * x - f * (o * x)
    ensures f * (s + o * x) == f * s + f * (o * x)
  {}

  /** The value of every row of the new system against x, in terms of the old one. */
  lemma PivotDots(m: Matrix, n: nat, k: nat, x: Vector, r: nat)
    requires Square(m, n) && k < n && m[k][k] != 0.0 && |x| == n && r < n
    ensures Dot(PivotStep(m, n, k)[r], x, n)
         == if r == k then Dot(m[k], x, n) / m[k][k]
            else Dot(m[r], x, n) - m[r][k] * (Dot(m[k], x, n) / m[k][k])
  {
    hide Dot, Scaled, Minus;
    var pivotRow := Scaled(m[k], m[k][k]);
    DotScaled(m[k], m[k][k], x, n);
    if r != k { DotMinus(m[r], m[r][k], pivotRow, x, n); }
  }

  /** A pivot step neither gains nor loses solutions. */
  lemma PivotKeepsSolutions(m: Matrix, b: Vector, n: nat, k: nat, x: Vector)
    requires Square(m, n) && |b| == n && k < n && m[k][k] != 0.0
    ensures Solves(PivotStep(m, n, k), PivotRight(m, b, n, k), n, x) <==> Solves(m, b, n, x)
  {
    if |x| == n {
      var p, q := PivotStep(m, n, k), PivotRight(m, b, n, k);
      if Solves(m, b, n, x) {
        forall r | 0 <= r < n ensures Dot(p[r], x, n) == q[r] { PivotDots(m, n, k, x, r); }
      }
      if Solves(p, q, n, x) {
        assert Dot(m[k], x, n) == b[k] by {
          PivotDots(m, n, k, x, k);
          assert Dot(p[k], x, n) == q[k];
          DivCancels(Dot(m[k], x, n), b[k], m[k][k]);
        }
        forall r | 0 <= r < n ensures Dot(m[r], x, n) == b[r] { PivotRowBack(m, b, n, k, x, r); }
      }
    }
  }

  lemma PivotRowBack(m: Matrix, b: Vector, n: nat, k: nat, x: Vector, r: nat)
    requires Square(m, n) && |b| == n && k < n && m[k][k] != 0.0 && |x| == n && r < n
    requires Dot(m[k], x, n) == b[k]
    requires Dot(PivotStep(m, n, k)[r], x, n) == PivotRight(m, b, n, k)[r]
    ensures Dot(m[r], x, n) == b[r]
  {
    PivotDots(m, n, k, x, r);
    var q := b[k] / m[k][k];
    assert Dot(m[k], x, n) / m[k][k] == q;
    assert r != k ==> Dot(PivotStep(m, n, k)[r], x, n) == Dot(m[r], x, n) - m[r][k] * q;
    assert r != k ==> PivotRight(m, b, n, k)[r] == b[r] - m[r][k] * q;
  }

  lemma DivCancels(a: real, b: real, d: real)
    requires d != 0.0 && a / d == b / d
    ensures a == b
  {
    assert a == (a / d) * d && b == (b / d) * d;
  }

  lemma SwapKeepsSolutions(m: Matrix, b: Vector, n: nat, i: nat, j: nat, x: Vector)
    requires Square(m, n) && |b| == n && i < n && j < n
    ensures Solves(Swapped(m, i, j), Swapped(b, i, j), n, x) <==> Solves(m, b, n, x)
  {
    var s := Swapped(m, i, j);
    if Solves(s, Swapped(b, i, j), n, x) {
      forall r | 0 <= r < n ensures Dot(m[r], x, n) == b[r] {
        assert m[r] == s[if r == i then j else if r == j then i else r];
      }
    }
  }

  // ----- what elimination reaches -----

  /** The first k columns are those of the identity. */
  ghost predicate Reduced(m: Matrix, n: nat, k: nat)
    requires Square(m, n) && k <= n
  {
    forall r, c :: 0 <= r < n && 0 <= c < k ==> m[r][c] == if r == c then 1.0 else 0.0
  }

  lemma PivotReduces(m: Matrix, n: nat, k: nat)
    requires Square(m, n) && k < n && m[k][k] != 0.0 && Reduced(m, n, k)
    ensures Reduced(PivotStep(m, n, k), n, k + 1)
  {
    var p := PivotStep(m, n, k);
    var pivotRow := Scaled(m[k], m[k][k]);
    forall r, c | 0 <= r < n && 0 <= c < k + 1 ensures p[r][c] == if r == c then 1.0 else 0.0 {
      DivFacts(m[k][k]);
      assert c < k ==> m[k][c] == 0.0;
      if r != k { ClearTerm(m[r][c], m[r][k], pivotRow[c]); }
    }
  }

  lemma DivFacts(d: real)
    requires d != 0.0
    ensures 0.0 / d == 0.0 && d / d == 1.0
  {}

  lemma ClearTerm(a: real, f: real, o: real)
    ensures o == 0.0 ==> a - f * o == a
    ensures o == 1.0 ==> a - f * o == a - f
  {}

  /** Against a vector, a reduced row reads off its own component and the columns beyond k. */
  lemma {:induction false} ReducedDot(m: Matrix, n: nat, k: nat, r: nat, v: Vector, upTo: nat)
    requires Square(m, n) && k <= n && Reduced(m, n, k) && |v| == n && r < n && upTo <= k
    ensures Dot(m[r], v, upTo) == if r < upTo then v[r] else 0.0
  {
    if upTo > 0 { ReducedDot(m, n, k, r, v, upTo - 1); }
  }

  // ----- where the pivot rows came from -----

  ghost predicate Hits(perm: seq<nat>, i: nat) { exists r :: 0 <= r < |perm| && perm[r] == i }

  ghost predicate Permutation(perm: seq<nat>, n: nat) {
    && |perm| == n && (forall r :: 0 <= r < n ==> perm[r] < n)
    && (forall i: nat :: i < n ==> Hits(perm, i))
  }

  ghost predicate Vanishes(m: Matrix, n: nat, k: nat, v: Vector)
    requires Square(m, n) && k <= n && |v| == n
  {
    forall r :: 0 <= r < k ==> Dot(m[r], v, n) == 0.0
  }

  ghost predicate Agrees(a: Matrix, m: Matrix, n: nat, perm: seq<nat>, v: Vector)
    requires Square(a, n) && Square(m, n) && Permutation(perm, n) && |v| == n
  {
    forall r :: 0 <= r < n ==> Dot(a[perm[r]], v, n) == Dot(m[r], v, n)
  }

  /** On a vector the first k rows annihilate, the original rows (permuted) agree with the current ones. */
  ghost predicate Tracks(a: Matrix, m: Matrix, n: nat, perm: seq<nat>, k: nat)
    requires Square(a, n) && Square(m, n) && k <= n
  {
    && Permutation(perm, n)
    && forall v: Vector :: |v| == n && Vanishes(m, n, k, v) ==> Agrees(a, m, n, perm, v)
  }

  lemma SwapPermutes(perm: seq<nat>, n: nat, k: nat, j: nat)
    requires Permutation(perm, n) && k < n && j < n
    ensures Permutation(Swapped(perm, k, j), n)
  {
    var perm' := Swapped(perm, k, j);
    forall i: nat | i < n ensures Hits(perm', i) {
      assert Hits(perm, i);
      var r :| 0 <= r < n && perm[r] == i;
      assert perm'[if r == k then j else if r == j then k else r] == i;
    }
  }

  lemma SwapTracks(a: Matrix, m: Matrix, n: nat, perm: seq<nat>, k: nat, j: nat)
    requires Square(a, n) && Square(m, n) && k <= j < n && Tracks(a, m, n, perm, k)
    ensures Tracks(a, Swapped(m, k, j), n, Swapped(perm, k, j), k)
  {
    var m', perm' := Swapped(m, k, j), Swapped(perm, k, j);
    SwapPermutes(perm, n, k, j);
    forall v: Vector | |v| == n && Vanishes(m', n, k, v) ensures Agrees(a, m', n, perm', v) {
      forall q | 0 <= q < k ensures Dot(m[q], v, n) == 0.0 { assert m'[q] == m[q]; }
      assert Vanishes(m, n, k, v);
      SwapAgrees(a, m, n, perm, k, j, v);
    }
  }

  lemma SwapAgrees(a: Matrix, m: Matrix, n: nat, perm: seq<nat>, k: nat, j: nat, v: Vector)
    requires Square(a, n) && Square(m, n) && Permutation(perm, n) && k < n && j < n && |v| == n
    requires Permutation(Swapped(perm, k, j), n) && Agrees(a, m, n, perm, v)
    ensures Agrees(a, Swapped(m, k, j), n, Swapped(perm, k, j), v)
  {
    hide Dot;
    var m', perm' := Swapped(m, k, j), Swapped(perm, k, j);
    forall r | 0 <= r < n ensures Dot(a[perm'[r]], v, n) == Dot(m'[r], v, n) {
      var q := if r == k then j else if r == j then k else r;
      assert m'[r] == m[q] && perm'[r] == perm[q];
      assert Dot(a[perm[q]], v, n) == Dot(m[q], v, n);
    }
  }

  lemma PivotTracks(a: Matrix, m: Matrix, n: nat, perm: seq<nat>, k: nat)
    requires Square(a, n) && Square(m, n) && k < n && m[k][k] != 0.0 && Tracks(a, m, n, perm, k)
    ensures Tracks(a, PivotStep(m, n, k), n, perm, k + 1)
  {
    var p := PivotStep(m, n, k);
    forall v: Vector | |v| == n && Vanishes(p, n, k + 1, v) ensures Agrees(a, p, n, perm, v) {
      PivotVanishes(m, n, k, v);
      assert Agrees(a, m, n, perm, v);
    }
  }

  /** If the new pivot row annihilates v, the step changes no row's value on v. */
  lemma PivotVanishes(m: Matrix, n: nat, k: nat, v: Vector)
    requires Square(m, n) && k < n && m[k][k] != 0.0 && |v| == n && Vanishes(PivotStep(m, n, k), n, k + 1, v)
    ensures forall q :: 0 <= q < n ==> Dot(PivotStep(m, n, k)[q], v, n) == Dot(m[q], v, n)
    ensures Vanishes(m, n, k, v)
  {
    hide Dot, PivotStep;
    var p := PivotStep(m, n, k);
    assert Dot(m[k], v, n) == 0.0 by {
      PivotDots(m, n, k, v, k);
      assert Dot(p[k], v, n) == 0.0;
      DivCancels(Dot(m[k], v, n), 0.0, m[k][k]);
    }
    forall q | 0 <= q < n ensures Dot(p[q], v, n) == Dot(m[q], v, n) { PivotDotUnchanged(m, n, k, v, q); }
    forall q | 0 <= q < k ensures Dot(m[q], v, n) == 0.0 { assert Dot(p[q], v, n) == 0.0; }
  }

  lemma PivotDotUnchanged(m: Matrix, n: nat, k: nat, v: Vector, q: nat)
    requires Square(m, n) && k < n && m[k][k] != 0.0 && |v| == n && q < n && Dot(m[k], v, n) == 0.0
    ensures Dot(PivotStep(m, n, k)[q], v, n) == Dot(m[q], v, n)
  {
    PivotDots(m, n, k, v, q);
    assert 0.0 / m[k][k] == 0.0;
  }

  // ----- failure -----

  /** v has a unit component and A almost annihilates it. */
  ghost predicate NearlySingular(a: Matrix, n: nat, v: Vector)
    requires Square(a, n)
  {
    && |v| == n && (exists k :: 0 <= k < n && v[k] == 1.0)
    && forall i :: 0 <= i < n ==> Abs(Dot(a[i], v, n)) <= EPSILON
  }

  function Witness(m: Matrix, n: nat, k: nat): Vector
    requires Square(m, n) && k < n
  {
    seq(n, j requires 0 <= j < n => if j < k then -m[j][k] else if j == k then 1.0 else 0.0)
  }

  lemma {:induction false} WitnessDot(m: Matrix, n: nat, k: nat, r: nat, upTo: nat)
    requires Square(m, n) && k < n && Reduced(m, n, k) && r < n && k < upTo <= n
    ensures Dot(m[r], Witness(m, n, k), upTo) == if r < k then 0.0 else m[r][k]
  {
    if upTo == k + 1 {
      ReducedDot(m, n, k, r, Witness(m, n, k), k);
    } else {
      WitnessDot(m, n, k, r, upTo - 1);
    }
  }

  /** A column without a usable pivot exhibits such a vector for the original matrix. */
  lemma NoPivot(a: Matrix, m: Matrix, n: nat, perm: seq<nat>, k: nat)
    requires Square(a, n) && Square(m, n) && k < n && Reduced(m, n, k) && Tracks(a, m, n, perm, k)
    requires forall r :: k <= r < n ==> Abs(m[r][k]) <= EPSILON
    ensures NearlySingular(a, n, Witness(m, n, k))
  {
    var v := Witness(m, n, k);
    forall r | 0 <= r < n ensures Dot(m[r], v, n) == if r < k then 0.0 else m[r][k] { WitnessDot(m, n, k, r, n); }
    assert Vanishes(m, n, k, v);
    assert v[k] == 1.0;
    forall i | 0 <= i < n ensures Abs(Dot(a[i], v, n)) <= EPSILON {
      assert Hits(perm, i);
      var r :| 0 <= r < n && perm[r] == i;
      assert Agrees(a, m, n, perm, v) && Dot(a[perm[r]], v, n) == Dot(m[r], v, n);
    }
  }

  // ----- the algorithm -----

  datatype Solution = Solved(x: Vector) | Singular

  ghost predicate SameSolutions(a: Matrix, b: Vector, m: Matrix, right: Vector, n: nat)
    requires Square(a, n) && Square(m, n) && |b| == n && |right| == n
  {
    forall x :: Solves(m, right, n, x) <==> Solves(a, b, n, x)
  }

  method Normalise(matrix: Matrix, n: nat, k: nat) returns (m: Matrix)
    requires Square(matrix, n) && k < n && matrix[k][k] != 0.0 && Reduced(matrix, n, k)
    ensures m == matrix[k := Scaled(matrix[k], matrix[k][k])]
  {
    m := matrix;
    var diagonal := m[k][k];
    for column := k to n
      invariant |m| == n && forall r :: 0 <= r < n && r != k ==> m[r] == matrix[r]
      invariant |m[k]| == n && forall c :: 0 <= c < n ==>
        m[k][c] == if c < column then matrix[k][c] / diagonal else matrix[k][c]
    {
      m := m[k := m[k][column := m[k][column] / diagonal]];
    }
    assert m[k] == Scaled(matrix[k], diagonal);
  }

  method Eliminate(matrix: Matrix, n: nat, k: nat, row: nat) returns (m: Matrix)
    requires Square(matrix, n) && k < n && row < n && row != k
    requires forall c :: 0 <= c < k ==> matrix[k][c] == 0.0
    ensures m == matrix[row := Minus(matrix[row], matrix[row][k], matrix[k])]
  {
    m := matrix;
    var factor := m[row][k];
    if factor == 0.0 {
      assert Minus(matrix[row], factor, matrix[k]) == matrix[row];
      return;
    }
    for column := k to n
      invariant |m| == n && forall r :: 0 <= r < n && r != row ==> m[r] == matrix[r]
      invariant |m[row]| == n
      invariant forall c :: 0 <= c < n ==>
        m[row][c] == if k <= c < column then matrix[row][c] - factor * matrix[k][c] else matrix[row][c]
    {
      m := m[row := m[row][column := m[row][column] - factor * m[k][column]]];
    }
    forall c | 0 <= c < n ensures m[row][c] == Minus(matrix[row], factor, matrix[k])[c] {
      if c < k { assert factor * matrix[k][c] == 0.0; }
    }
    assert m[row] == Minus(matrix[row], factor, matrix[k]);
  }

  lemma PivotAt(m: Matrix, b: Vector, n: nat, k: nat, r: nat)
    requires Square(m, n) && |b| == n && k < n && m[k][k] != 0.0 && r < n
    ensures PivotStep(m, n, k)[r] == if r == k then Scaled(m[k], m[k][k])
      else Minus(m[r], m[r][k], Scaled(m[k], m[k][k]))
    ensures PivotRight(m, b, n, k)[r] == if r == k then b[k] / m[k][k] else b[r] - m[r][k] * (b[k] / m[k][k])
  {}

  lemma ScaledZeros(m: Matrix, n: nat, k: nat)
    requires Square(m, n) && k < n && m[k][k] != 0.0 && Reduced(m, n, k)
    ensures forall c :: 0 <= c < k ==> Scaled(m[k], m[k][k])[c] == 0.0
  {
    assert forall c :: 0 <= c < k ==> m[k][c] == 0.0;
  }

  method Round(before: Matrix, beforeRight: Vector, n: nat, pivot: nat) returns (matrix: Matrix, right: Vector)
    requires Square(before, n) && |beforeRight| == n && pivot < n && before[pivot][pivot] != 0.0
      && Reduced(before, n, pivot)
    ensures matrix == PivotStep(before, n, pivot) && right == PivotRight(before, beforeRight, n, pivot)
  {
    hide PivotStep, PivotRight, Scaled, Minus, Reduced;
    var diagonal := before[pivot][pivot];
    ghost var p, q := PivotStep(before, n, pivot), PivotRight(before, beforeRight, n, pivot);
    matrix := Normalise(before, n, pivot);
    right := beforeRight[pivot := beforeRight[pivot] / diagonal];
    ScaledZeros(before, n, pivot);
    PivotAt(before, beforeRight, n, pivot, pivot);
    for row := 0 to n
      invariant |matrix| == n && |right| == n
      invariant forall r :: 0 <= r < n ==> matrix[r] == if r == pivot || r < row then p[r] else before[r]
      invariant forall r :: 0 <= r < n ==> right[r] == if r == pivot || r < row then q[r] else beforeRight[r]
    {
      PivotAt(before, beforeRight, n, pivot, row);
      if row != pivot {
        var factor := matrix[row][pivot];
        matrix := Eliminate(matrix, n, pivot, row);
        if factor != 0.0 { right := right[row := right[row] - factor * right[pivot]]; }
      }
    }
  }

  /** A solution returned is the only one of the original system; the refusal exhibits a vector
      with a unit component that the original matrix maps to within EPSILON of zero. */
  method SolveLinear(a: Matrix, b: Vector) returns (result: Solution)
    requires Square(a, |b|)
    ensures result.Solved? ==> forall x :: Solves(a, b, |b|, x) <==> x == result.x
    ensures result.Singular? ==> exists v :: NearlySingular(a, |b|, v)
  {
    hide Dot, Solves, Reduced, SameSolutions, Tracks, NearlySingular, PivotStep, PivotRight, Swapped;
    var n := |b|;
    var matrix, right := a, b;
    ghost var perm: seq<nat> := Identity(n);
    Initially(a, b);
    for pivot := 0 to n
      invariant Square(matrix, n) && |right| == n && |perm| == n
      invariant Reduced(matrix, n, pivot)
      invariant SameSolutions(a, b, matrix, right, n)
      invariant Tracks(a, matrix, n, perm, pivot)
    {
      var best := pivot;
      for row := pivot + 1 to n
        invariant pivot <= best < n
        invariant forall r :: pivot <= r < row ==> Abs(matrix[r][pivot]) <= Abs(matrix[best][pivot])
      {
        if Abs(matrix[row][pivot]) > Abs(matrix[best][pivot]) { best := row; }
      }
      if !(Abs(matrix[best][pivot]) > EPSILON) {
        NoPivot(a, matrix, n, perm, pivot);
        return Singular;
      }
      SwapTracks(a, matrix, n, perm, pivot, best);
      SwapSame(a, b, matrix, right, n, pivot, best);
      SwapReduces(matrix, n, pivot, best);
      matrix := Swapped(matrix, pivot, best);
      right := Swapped(right, pivot, best);
      perm := Swapped(perm, pivot, best);
      PivotSame(a, b, matrix, right, n, pivot);
      PivotTracks(a, matrix, n, perm, pivot);
      PivotReduces(matrix, n, pivot);
      matrix, right := Round(matrix, right, n, pivot);
    }
    OnlySolution(a, b, matrix, right, n);
    result := Solved(right);
  }

  ghost function Identity(n: nat): (perm: seq<nat>)
    ensures |perm| == n && forall i :: 0 <= i < n ==> perm[i] == i
  {
    seq(n, i => i)
  }

  lemma Initially(a: Matrix, b: Vector)
    requires Square(a, |b|)
    ensures Reduced(a, |b|, 0) && SameSolutions(a, b, a, b, |b|) && Tracks(a, a, |b|, Identity(|b|), 0)
  {
    var perm := Identity(|b|);
    forall i: nat | i < |b| ensures Hits(perm, i) { assert perm[i] == i; }
  }

  lemma SwapReduces(m: Matrix, n: nat, k: nat, j: nat)
    requires Square(m, n) && k <= j < n && Reduced(m, n, k)
    ensures Reduced(Swapped(m, k, j), n, k)
  {}

  lemma SwapSame(a: Matrix, b: Vector, m: Matrix, right: Vector, n: nat, i: nat, j: nat)
    requires Square(a, n) && Square(m, n) && |b| == n && |right| == n && i < n && j < n
    requires SameSolutions(a, b, m, right, n)
    ensures SameSolutions(a, b, Swapped(m, i, j), Swapped(right, i, j), n)
  {
    forall x ensures Solves(Swapped(m, i, j), Swapped(right, i, j), n, x) <==> Solves(a, b, n, x) {
      SwapKeepsSolutions(m, right, n, i, j, x);
    }
  }

  lemma PivotSame(a: Matrix, b: Vector, m: Matrix, right: Vector, n: nat, k: nat)
    requires Square(a, n) && Square(m, n) && |b| == n && |right| == n && k < n && m[k][k] != 0.0
    requires SameSolutions(a, b, m, right, n)
    ensures SameSolutions(a, b, PivotStep(m, n, k), PivotRight(m, right, n, k), n)
  {
    forall x ensures Solves(PivotStep(m, n, k), PivotRight(m, right, n, k), n, x) <==> Solves(a, b, n, x) {
      PivotKeepsSolutions(m, right, n, k, x);
    }
  }

  lemma OnlySolution(a: Matrix, b: Vector, m: Matrix, right: Vector, n: nat)
    requires Square(a, n) && Square(m, n) && |b| == n && |right| == n
    requires Reduced(m, n, n) && SameSolutions(a, b, m, right, n)
    ensures forall x :: Solves(a, b, n, x) <==> x == right
  {
    forall x ensures Solves(m, right, n, x) <==> x == right {
      if |x| == n {
        forall r | 0 <= r < n ensures Dot(m[r], x, n) == x[r] { ReducedDot(m, n, n, r, x, n); }
        if Solves(m, right, n, x) {
          assert forall r :: 0 <= r < n ==> x[r] == right[r];
        }
      }
    }
  }
}
