/**
 * Gaussian elimination on values: the forward elimination that
 * `diagonalize` performs (pivot when the diagonal entry is zero, normalise
 * the pivot row, clear the column below it), and the back-substitution
 * that `gaussianElimination` runs on the result.
 *
 * Proved here: a completed elimination leaves a unit upper-triangular
 * system with the same solutions, back-substitution solves it (and is its
 * only solution), and an elimination that stops early has found a
 * non-zero vector that the original matrix sends to zero.
 *
 * The determinant that the comment on `diagonalize` promises is defined
 * here as (-1)^swaps times the product of the pivots, and proved to be
 * zero exactly when the matrix is singular.
 */
module Elimination {
  import opened Algebra
  import opened Systems
  import opened Matrices

  /** `Math.pow(-1, n)` for a non-negative integer exponent. */
  function PowMinusOne(n: nat): (r: real)
    ensures r == 1.0 || r == -1.0
  {
    if n == 0 then 1.0 else -1.0 * PowMinusOne(n - 1)
  }

  lemma {:induction false} PowMinusOneParity(n: nat)
    ensures PowMinusOne(n) == if n % 2 == 0 then 1.0 else -1.0
  {
    if n > 0 {
      PowMinusOneParity(n - 1);
    }
  }

  /**
   * The outcome of forward elimination: the transformed system, the number
   * of row swaps, and the pivot index it stopped at (the row count when it
   * ran to completion).
   */
  datatype Reduction = Reduction(sys: System, swaps: nat, stop: nat)

  /** Rows j, j+1, ... each get -s.m[row][i] times row i added. */
  function EliminateBelow(s: System, i: nat, j: nat): (r: System)
    requires IsSystem(s) && i < j <= |s.m|
    ensures IsSystem(r) && |r.m| == |s.m| && Width(r) == Width(s)
    decreases |s.m| - j
  {
    if j == |s.m| then s
    else EliminateBelow(MultiplyAndSumLines(s, j, i, -s.m[j][i]), i, j + 1)
  }

  /** The row exchange done at pivot i when the diagonal entry is zero (and a pivot exists). */
  function Pivot(s: System, i: nat): (t: System)
    requires IsSystem(s) && i < |s.m|
    requires s.m[i][i] == 0.0 ==> MainItem(s.m, i, i) != -1
    ensures IsSystem(t) && |t.m| == |s.m| && Width(t) == Width(s) && t.m[i][i] != 0.0
  {
    if s.m[i][i] == 0.0 then SwapLines(s, MainItem(s.m, i, i), i) else s
  }

  /** Forward elimination from pivot i on, with `swaps` exchanges made so far. */
  function DiagonalizeFrom(s: System, i: nat, swaps: nat): (r: Reduction)
    requires IsSystem(s) && i <= |s.m|
    ensures IsSystem(r.sys) && |r.sys.m| == |s.m| && Width(r.sys) == Width(s)
    ensures i <= r.stop <= |s.m|
    decreases |s.m| - i
  {
    if i == |s.m| then Reduction(s, swaps, i)
    else if s.m[i][i] == 0.0 && MainItem(s.m, i, i) == -1 then Reduction(s, swaps, i)
    else
      var t := Pivot(s, i);
      var u := MultiplyLine(t, i, 1.0 / t.m[i][i]);
      DiagonalizeFrom(EliminateBelow(u, i, i + 1), i + 1, if s.m[i][i] == 0.0 then swaps + 1 else swaps)
  }

  /** Forward elimination from the first column: at most one exchange per completed pivot. */
  function Diagonalized(s: System): (r: Reduction)
    requires IsSystem(s)
    ensures IsSystem(r.sys) && |r.sys.m| == |s.m| && Width(r.sys) == Width(s)
    ensures r.swaps <= r.stop <= |s.m|
  {
    SwapsBound(s, 0, 0);
    DiagonalizeFrom(s, 0, 0)
  }

  /** Elimination makes at most one exchange per pivot it completes. */
  lemma {:induction false} SwapsBound(s: System, i: nat, swaps: nat)
    requires IsSystem(s) && i <= |s.m|
    ensures var r := DiagonalizeFrom(s, i, swaps);
      swaps <= r.swaps <= swaps + (r.stop - i)
    decreases |s.m| - i
  {
    if i < |s.m| && !(s.m[i][i] == 0.0 && MainItem(s.m, i, i) == -1) {
      PivotsStep(s, i, swaps);
      SwapsBound(PivotStep(s, i), i + 1, if s.m[i][i] == 0.0 then swaps + 1 else swaps);
    }
  }

  lemma EliminateBelowStep(s: System, i: nat, j: nat)
    requires IsSystem(s) && i < j < |s.m|
    ensures EliminateBelow(s, i, j) == EliminateBelow(MultiplyAndSumLines(s, j, i, -s.m[j][i]), i, j + 1)
  {
  }

  lemma DiagonalizeStep(s: System, i: nat, swaps: nat)
    requires IsSystem(s) && i < |s.m| && !(s.m[i][i] == 0.0 && MainItem(s.m, i, i) == -1)
    ensures var t := Pivot(s, i);
      DiagonalizeFrom(s, i, swaps)
      == DiagonalizeFrom(EliminateBelow(MultiplyLine(t, i, 1.0 / t.m[i][i]), i, i + 1), i + 1,
                         if s.m[i][i] == 0.0 then swaps + 1 else swaps)
  {
  }

  /** Columns 0..k-1 are done: a 1 on the diagonal and zeros below it. */
  predicate Reduced(s: System, k: nat)
    requires IsSystem(s) && k <= |s.m|
  {
    forall p :: 0 <= p < k ==> s.m[p][p] == 1.0 && forall r :: p < r < |s.m| ==> s.m[r][p] == 0.0
  }

  /** In a reduced system, row q has zeros left of the diagonal in the reduced columns. */
  lemma ReducedRow(s: System, k: nat, q: nat)
    requires IsSystem(s) && k <= |s.m| && Reduced(s, k) && q < |s.m|
    ensures forall p :: 0 <= p < q && p < k ==> s.m[q][p] == 0.0
    ensures q < k ==> s.m[q][q] == 1.0
  {
    forall p | 0 <= p < q && p < k ensures s.m[q][p] == 0.0 {
      assert s.m[p][p] == 1.0;
    }
  }

  /** One elimination step below pivot i keeps columns 0..i reduced down to row j. */
  lemma EliminateBelowStepShape(s: System, i: nat, j: nat)
    requires IsSystem(s) && i < j < |s.m|
    requires Reduced(s, i) && s.m[i][i] == 1.0
    requires forall r :: i < r < j ==> s.m[r][i] == 0.0
    ensures var t := MultiplyAndSumLines(s, j, i, -s.m[j][i]);
      && Reduced(t, i) && t.m[i][i] == 1.0
      && forall r :: i < r < j + 1 ==> t.m[r][i] == 0.0
  {
    var t := MultiplyAndSumLines(s, j, i, -s.m[j][i]);
    assert forall r :: 0 <= r < |s.m| && r != j ==> t.m[r] == s.m[r];
    assert forall p :: 0 <= p <= i ==> t.m[j][p] == s.m[j][p] + s.m[i][p] * -s.m[j][i];
    ReducedRow(s, i, i);
    forall p | 0 <= p < i ensures t.m[p][p] == 1.0 && forall r :: p < r < |s.m| ==> t.m[r][p] == 0.0 {
      assert s.m[i][p] == 0.0;
    }
  }

  lemma {:induction false} EliminateBelowShape(s: System, i: nat, j: nat)
    requires IsSystem(s) && i < j <= |s.m|
    requires Reduced(s, i) && s.m[i][i] == 1.0
    requires forall r :: i < r < j ==> s.m[r][i] == 0.0
    ensures Reduced(EliminateBelow(s, i, j), i + 1)
    decreases |s.m| - j
  {
    if j < |s.m| {
      EliminateBelowStepShape(s, i, j);
      EliminateBelowShape(MultiplyAndSumLines(s, j, i, -s.m[j][i]), i, j + 1);
    }
  }

  lemma PivotShape(s: System, i: nat)
    requires IsSystem(s) && i < |s.m| && Reduced(s, i)
    requires s.m[i][i] == 0.0 ==> MainItem(s.m, i, i) != -1
    ensures Reduced(Pivot(s, i), i)
  {
    if s.m[i][i] == 0.0 {
      var p := MainItem(s.m, i, i);
      var t := Pivot(s, i);
      assert forall r :: 0 <= r < |s.m| ==> t.m[r] == s.m[if r == p then i else if r == i then p else r];
    }
  }

  /** Normalising the pivot row puts a 1 on the diagonal and keeps the reduced columns. */
  lemma NormalizeShape(t: System, i: nat)
    requires IsSystem(t) && i < |t.m| && Reduced(t, i) && t.m[i][i] != 0.0
    ensures var u := MultiplyLine(t, i, 1.0 / t.m[i][i]);
      IsSystem(u) && Reduced(u, i) && u.m[i][i] == 1.0
  {
    var u := MultiplyLine(t, i, 1.0 / t.m[i][i]);
    assert forall r :: 0 <= r < |t.m| && r != i ==> u.m[r] == t.m[r];
    assert forall p :: 0 <= p < |u.m[i]| ==> u.m[i][p] == t.m[i][p] * (1.0 / t.m[i][i]);
    ReducedRow(t, i, i);
    forall p | 0 <= p < i
      ensures u.m[p][p] == 1.0 && forall r :: p < r < |u.m| ==> u.m[r][p] == 0.0
    {
      assert t.m[p][p] == 1.0;
    }
  }

  lemma {:induction false} DiagonalizeShape(s: System, i: nat, swaps: nat)
    requires IsSystem(s) && i <= |s.m| && Reduced(s, i)
    ensures var r := DiagonalizeFrom(s, i, swaps);
      && Reduced(r.sys, r.stop)
      && (r.stop < |s.m| ==> forall row :: r.stop <= row < |s.m| ==> r.sys.m[row][r.stop] == 0.0)
    decreases |s.m| - i
  {
    if i < |s.m| && !(s.m[i][i] == 0.0 && MainItem(s.m, i, i) == -1) {
      var t := Pivot(s, i);
      PivotShape(s, i);
      NormalizeShape(t, i);
      var u := MultiplyLine(t, i, 1.0 / t.m[i][i]);
      EliminateBelowShape(u, i, i + 1);
      DiagonalizeStep(s, i, swaps);
      DiagonalizeShape(EliminateBelow(u, i, i + 1), i + 1, if s.m[i][i] == 0.0 then swaps + 1 else swaps);
    }
  }

  /** A completed elimination leaves a unit upper-triangular matrix. */
  lemma DiagonalizedTriangular(s: System)
    requires IsSystem(s) && Diagonalized(s).stop == |s.m|
    ensures forall p :: 0 <= p < |s.m| ==> Diagonalized(s).sys.m[p][p] == 1.0
    ensures forall p, r :: 0 <= p < r < |s.m| ==> Diagonalized(s).sys.m[r][p] == 0.0
  {
    DiagonalizeShape(s, 0, 0);
    var u := Diagonalized(s).sys;
    forall p, r | 0 <= p < r < |s.m| ensures u.m[r][p] == 0.0 {
      ReducedRow(u, |s.m|, r);
    }
  }

  lemma {:induction false} EliminateBelowPreserves(s: System, i: nat, j: nat, x: Vector)
    requires IsSystem(s) && i < j <= |s.m| && |x| == |s.m|
    ensures Solves(EliminateBelow(s, i, j), x) <==> Solves(s, x)
    decreases |s.m| - j
  {
    if j < |s.m| {
      MultiplyAndSumLinesPreserves(s, j, i, -s.m[j][i], x);
      EliminateBelowPreserves(MultiplyAndSumLines(s, j, i, -s.m[j][i]), i, j + 1, x);
    }
  }

  /** Every step of the elimination is invertible, so the solution set is unchanged. */
  lemma {:induction false} DiagonalizePreserves(s: System, i: nat, swaps: nat, x: Vector)
    requires IsSystem(s) && i <= |s.m| && |x| == |s.m|
    ensures Solves(DiagonalizeFrom(s, i, swaps).sys, x) <==> Solves(s, x)
    decreases |s.m| - i
  {
    if i < |s.m| && !(s.m[i][i] == 0.0 && MainItem(s.m, i, i) == -1) {
      var n, next := DiagonalizePreservesStep(s, i, swaps, x);
      DiagonalizePreserves(n, i + 1, next, x);
    }
  }

  /** One pivot step keeps x a solution exactly when it was one. */
  lemma DiagonalizePreservesStep(s: System, i: nat, swaps: nat, x: Vector) returns (n: System, next: nat)
    requires IsSystem(s) && i < |s.m| && |x| == |s.m|
    requires !(s.m[i][i] == 0.0 && MainItem(s.m, i, i) == -1)
    ensures IsSystem(n) && |n.m| == |s.m|
    ensures Solves(n, x) <==> Solves(s, x)
    ensures DiagonalizeFrom(s, i, swaps) == DiagonalizeFrom(n, i + 1, next)
  {
    var t := Pivot(s, i);
    if s.m[i][i] == 0.0 {
      SwapLinesPreserves(s, MainItem(s.m, i, i), i, x);
    }
    var k := 1.0 / t.m[i][i];
    MultiplyLinePreserves(t, i, k, x);
    var u := MultiplyLine(t, i, k);
    EliminateBelowPreserves(u, i, i + 1, x);
    DiagonalizeStep(s, i, swaps);
    n, next := EliminateBelow(u, i, i + 1), if s.m[i][i] == 0.0 then swaps + 1 else swaps;
  }

  lemma {:induction false} EliminateBelowIgnoresColumn(s1: System, s2: System, i: nat, j: nat)
    requires IsSystem(s1) && IsSystem(s2) && s1.m == s2.m && i < j <= |s1.m|
    ensures EliminateBelow(s1, i, j).m == EliminateBelow(s2, i, j).m
    decreases |s1.m| - j
  {
    if j < |s1.m| {
      EliminateBelowIgnoresColumn(MultiplyAndSumLines(s1, j, i, -s1.m[j][i]),
                                  MultiplyAndSumLines(s2, j, i, -s2.m[j][i]), i, j + 1);
    }
  }

  /** Pivoting and normalising act on the matrix part regardless of the right-hand side. */
  lemma NormalizeIgnoresColumn(s1: System, s2: System, i: nat)
    requires IsSystem(s1) && IsSystem(s2) && s1.m == s2.m && i < |s1.m|
    requires !(s1.m[i][i] == 0.0 && MainItem(s1.m, i, i) == -1)
    ensures var t1, t2 := Pivot(s1, i), Pivot(s2, i);
      MultiplyLine(t1, i, 1.0 / t1.m[i][i]).m == MultiplyLine(t2, i, 1.0 / t2.m[i][i]).m
  {
  }

  /** The matrix part, the swap count and the stopping pivot do not depend on the right-hand side. */
  lemma {:induction false} DiagonalizeIgnoresColumn(s1: System, s2: System, i: nat, swaps: nat)
    requires IsSystem(s1) && IsSystem(s2) && s1.m == s2.m && i <= |s1.m|
    ensures DiagonalizeFrom(s1, i, swaps).sys.m == DiagonalizeFrom(s2, i, swaps).sys.m
    ensures DiagonalizeFrom(s1, i, swaps).stop == DiagonalizeFrom(s2, i, swaps).stop
    ensures DiagonalizeFrom(s1, i, swaps).swaps == DiagonalizeFrom(s2, i, swaps).swaps
    decreases |s1.m| - i
  {
    if i < |s1.m| && !(s1.m[i][i] == 0.0 && MainItem(s1.m, i, i) == -1) {
      var n1, n2, next := DiagonalizeIgnoresColumnStep(s1, s2, i, swaps);
      DiagonalizeIgnoresColumn(n1, n2, i + 1, next);
    }
  }

  /** One pivot step of two systems with the same matrix part leads to two such systems again. */
  lemma DiagonalizeIgnoresColumnStep(s1: System, s2: System, i: nat, swaps: nat)
    returns (n1: System, n2: System, next: nat)
    requires IsSystem(s1) && IsSystem(s2) && s1.m == s2.m && i < |s1.m|
    requires !(s1.m[i][i] == 0.0 && MainItem(s1.m, i, i) == -1)
    ensures IsSystem(n1) && IsSystem(n2) && n1.m == n2.m && |n1.m| == |s1.m|
    ensures DiagonalizeFrom(s1, i, swaps) == DiagonalizeFrom(n1, i + 1, next)
    ensures DiagonalizeFrom(s2, i, swaps) == DiagonalizeFrom(n2, i + 1, next)
  {
    var t1, t2 := Pivot(s1, i), Pivot(s2, i);
    var u1, u2 := MultiplyLine(t1, i, 1.0 / t1.m[i][i]), MultiplyLine(t2, i, 1.0 / t2.m[i][i]);
    NormalizeIgnoresColumn(s1, s2, i);
    EliminateBelowIgnoresColumn(u1, u2, i, i + 1);
    DiagonalizeStep(s1, i, swaps);
    DiagonalizeStep(s2, i, swaps);
    n1, n2 := EliminateBelow(u1, i, i + 1), EliminateBelow(u2, i, i + 1);
    next := if s1.m[i][i] == 0.0 then swaps + 1 else swaps;
  }

  lemma {:induction false} EliminateBelowKeepsZeroColumn(s: System, i: nat, j: nat)
    requires IsSystem(s) && i < j <= |s.m| && s.c == Zeros(|s.m|)
    ensures EliminateBelow(s, i, j).c == Zeros(|s.m|)
    decreases |s.m| - j
  {
    if j < |s.m| {
      var t := MultiplyAndSumLines(s, j, i, -s.m[j][i]);
      assert t.c == s.c;
      EliminateBelowKeepsZeroColumn(t, i, j + 1);
    }
  }

  /** Pivoting and normalising a homogeneous system keeps its right-hand side zero. */
  lemma NormalizeKeepsZeroColumn(s: System, i: nat)
    requires IsSystem(s) && i < |s.m| && s.c == Zeros(|s.m|)
    requires !(s.m[i][i] == 0.0 && MainItem(s.m, i, i) == -1)
    ensures var t := Pivot(s, i);
      MultiplyLine(t, i, 1.0 / t.m[i][i]).c == Zeros(|s.m|)
  {
    var t := Pivot(s, i);
    assert t.c == s.c;
    var u := MultiplyLine(t, i, 1.0 / t.m[i][i]);
    assert u.c == s.c;
  }

  /** Eliminating on a homogeneous system keeps its right-hand side zero. */
  lemma {:induction false} DiagonalizeKeepsZeroColumn(s: System, i: nat, swaps: nat)
    requires IsSystem(s) && i <= |s.m| && s.c == Zeros(|s.m|)
    ensures DiagonalizeFrom(s, i, swaps).sys.c == Zeros(|s.m|)
    decreases |s.m| - i
  {
    if i < |s.m| && !(s.m[i][i] == 0.0 && MainItem(s.m, i, i) == -1) {
      var n, next := DiagonalizeKeepsZeroColumnStep(s, i, swaps);
      DiagonalizeKeepsZeroColumn(n, i + 1, next);
    }
  }

  /** One pivot step of a homogeneous system leads to a homogeneous system. */
  lemma DiagonalizeKeepsZeroColumnStep(s: System, i: nat, swaps: nat) returns (n: System, next: nat)
    requires IsSystem(s) && i < |s.m| && s.c == Zeros(|s.m|)
    requires !(s.m[i][i] == 0.0 && MainItem(s.m, i, i) == -1)
    ensures IsSystem(n) && |n.m| == |s.m| && n.c == Zeros(|s.m|)
    ensures DiagonalizeFrom(s, i, swaps) == DiagonalizeFrom(n, i + 1, next)
  {
    var t := Pivot(s, i);
    var u := MultiplyLine(t, i, 1.0 / t.m[i][i]);
    NormalizeKeepsZeroColumn(s, i);
    EliminateBelowKeepsZeroColumn(u, i, i + 1);
    DiagonalizeStep(s, i, swaps);
    n, next := EliminateBelow(u, i, i + 1), if s.m[i][i] == 0.0 then swaps + 1 else swaps;
  }

  // Back-substitution.

  /**
   * Back-substitution from row `top` upward, stopping above row k: rows
   * below `top` are 0; row q (k <= q <= top) is u.c[q] minus the weighted
   * sum of the entries already computed to its right.
   */
  function Fill(u: System, top: nat, k: nat): (x: Vector)
    requires IsSystem(u) && top < |u.m| && k <= top + 1
    ensures |x| == |u.m|
    decreases top + 1 - k
  {
    if k == top + 1 then Zeros(|u.m|)
    else
      var y := Fill(u, top, k + 1);
      y[k := u.c[k] - SumRange(u.m[k], y, k + 1, |u.m|)]
  }

  /** The back-substitution `gaussianElimination` performs on a triangularised system. */
  function BackSubst(u: System): (x: Vector)
    requires IsSystem(u) && 0 < |u.m|
    ensures |x| == |u.m| && x[|u.m| - 1] == u.c[|u.m| - 1]
  {
    FillStable(u, |u.m| - 1, 0, |u.m| - 1);
    Fill(u, |u.m| - 1, 0)
  }

  lemma {:induction false} FillStable(u: System, top: nat, k: nat, j: nat)
    requires IsSystem(u) && top < |u.m| && k <= j <= top + 1
    ensures forall q :: j <= q < |u.m| ==> Fill(u, top, k)[q] == Fill(u, top, j)[q]
    decreases j - k
  {
    if k < j {
      FillStable(u, top, k + 1, j);
    }
  }

  lemma FillRecurrence(u: System, top: nat)
    requires IsSystem(u) && top < |u.m|
    ensures var x := Fill(u, top, 0);
      && (forall q :: 0 <= q <= top ==> x[q] == u.c[q] - SumRange(u.m[q], x, q + 1, |u.m|))
      && (forall q :: top < q < |u.m| ==> x[q] == 0.0)
  {
    var x := Fill(u, top, 0);
    FillStable(u, top, 0, top + 1);
    forall q | 0 <= q <= top
      ensures x[q] == u.c[q] - SumRange(u.m[q], x, q + 1, |u.m|)
    {
      FillStable(u, top, 0, q);
      FillStable(u, top, 0, q + 1);
      SumRangeAgree(u.m[q], x, u.m[q], Fill(u, top, q + 1), q + 1, |u.m|);
    }
  }

  /** The recurrence of back-substitution: x[n-1] = c[n-1], x[i] = c[i] - sum over j > i of U[i][j] * x[j]. */
  lemma BackSubstRecurrence(u: System)
    requires IsSystem(u) && 0 < |u.m|
    ensures var x, n := BackSubst(u), |u.m|;
      && x[n - 1] == u.c[n - 1]
      && forall i :: 0 <= i < n - 1 ==> x[i] == u.c[i] - SumRange(u.m[i], x, i + 1, n)
  {
    FillRecurrence(u, |u.m| - 1);
  }

  /** Row q of a unit upper-triangular system is met by the back-substituted value. */
  lemma UnitRow(row: Vector, x: Vector, q: nat, rhs: real)
    requires q < |x| <= |row|
    requires row[q] == 1.0 && forall p :: 0 <= p < q ==> row[p] == 0.0
    requires x[q] == rhs - SumRange(row, x, q + 1, |x|)
    ensures Dot(row, x) == rhs
  {
    SumRangeSplit(row, x, 0, q, |x|);
    SumRangeZero(row, x, 0, q);
  }

  /** Back-substitution solves a unit upper-triangular system. */
  lemma BackSubstSolves(u: System)
    requires IsSystem(u) && 0 < |u.m| && Reduced(u, |u.m|)
    ensures Solves(u, BackSubst(u))
  {
    var x := BackSubst(u);
    FillRecurrence(u, |u.m| - 1);
    forall q | 0 <= q < |u.m| ensures Dot(u.m[q], x) == u.c[q] {
      ReducedRow(u, |u.m|, q);
      UnitRow(u.m[q], x, q, u.c[q]);
    }
  }

  /** ... and it is the only solution of such a system. */
  lemma BackSubstUnique(u: System, x: Vector)
    requires IsSystem(u) && 0 < |u.m| && Reduced(u, |u.m|)
    requires |x| == |u.m| && Solves(u, x)
    ensures x == BackSubst(u)
  {
    var n := |u.m|;
    var y := BackSubst(u);
    FillRecurrence(u, n - 1);
    var k := n;
    while k > 0
      invariant 0 <= k <= n
      invariant forall q :: k <= q < n ==> x[q] == y[q]
    {
      k := k - 1;
      BackSubstUniqueRow(u, x, y, k);
    }
  }

  /** Row k of a unit upper-triangular system fixes x[k] once x agrees with y below it. */
  lemma BackSubstUniqueRow(u: System, x: Vector, y: Vector, k: nat)
    requires IsSystem(u) && Reduced(u, |u.m|) && k < |u.m|
    requires |x| == |u.m| && Dot(u.m[k], x) == u.c[k]
    requires |y| == |u.m| && y[k] == u.c[k] - SumRange(u.m[k], y, k + 1, |u.m|)
    requires forall q :: k < q < |u.m| ==> x[q] == y[q]
    ensures x[k] == y[k]
  {
    var n := |u.m|;
    ReducedRow(u, n, k);
    SumRangeSplit(u.m[k], x, 0, k, n);
    SumRangeZero(u.m[k], x, 0, k);
    SumRangeAgree(u.m[k], x, u.m[k], y, k + 1, n);
  }

  /** What `gaussianElimination` returns: back-substitution on the eliminated system. */
  function GaussSolve(s: System): (x: Vector)
    requires IsSystem(s) && 0 < |s.m|
    ensures |x| == |s.m|
  {
    BackSubst(Diagonalized(s).sys)
  }

  /** When elimination completes, the result solves the original system, and nothing else does. */
  lemma GaussSolves(s: System)
    requires IsSystem(s) && 0 < |s.m| && Diagonalized(s).stop == |s.m|
    ensures |GaussSolve(s)| == |s.m| && Solves(s, GaussSolve(s))
    ensures forall x :: |x| == |s.m| && Solves(s, x) ==> x == GaussSolve(s)
  {
    var u := Diagonalized(s).sys;
    DiagonalizeShape(s, 0, 0);
    BackSubstSolves(u);
    DiagonalizePreserves(s, 0, 0, GaussSolve(s));
    forall x | |x| == |s.m| && Solves(s, x) ensures x == GaussSolve(s) {
      DiagonalizePreserves(s, 0, 0, x);
      BackSubstUnique(u, x);
    }
  }

  /**
   * The null vector of a matrix reduced up to column p whose column p is zero
   * from row p down: 1 at p, 0 below, back-substituted above.
   */
  function NullVector(u: System, p: nat): Vector
    requires IsSystem(u) && p < |u.m|
  {
    Fill(System(u.m, Unit(|u.m|, p)), p, 0)
  }

  lemma NullVectorSpec(u: System, p: nat)
    requires IsSystem(u) && p < |u.m| && Reduced(u, p)
    requires forall row :: p <= row < |u.m| ==> u.m[row][p] == 0.0
    ensures var y := NullVector(u, p);
      && |y| == |u.m| && y[p] == 1.0
      && forall q :: 0 <= q < |u.m| ==> Dot(u.m[q], y) == 0.0
  {
    var n := |u.m|;
    var e := System(u.m, Unit(n, p));
    var y := Fill(e, p, 0);
    FillRecurrence(e, p);
    SumRangeZero(u.m[p], y, p + 1, n);
    forall q | 0 <= q < n ensures Dot(u.m[q], y) == 0.0 {
      ReducedRow(u, p, q);
      if q < p {
        UnitRow(u.m[q], y, q, 0.0);
      } else {
        SumRangeSplit(u.m[q], y, 0, p, n);
        SumRangeZero(u.m[q], y, 0, p);
        SumRangeZero(u.m[q], y, p, n);
      }
    }
  }

  /**
   * When elimination stops early, the original matrix sends a non-zero
   * vector to zero: the matrix is singular.
   */
  lemma StoppedMeansSingular(s: System) returns (y: Vector)
    requires IsSystem(s) && Diagonalized(s).stop < |s.m|
    ensures |y| == |s.m| && y != Zeros(|s.m|)
    ensures Solves(System(s.m, Zeros(|s.m|)), y)
  {
    var n, r := |s.m|, Diagonalized(s);
    var h := System(s.m, Zeros(n));
    DiagonalizeIgnoresColumn(s, h, 0, 0);
    DiagonalizeKeepsZeroColumn(h, 0, 0);
    DiagonalizeShape(s, 0, 0);
    var hu := Diagonalized(h).sys;
    assert hu == System(r.sys.m, Zeros(n));
    NullVectorSpec(r.sys, r.stop);
    y := NullVector(r.sys, r.stop);
    assert Solves(hu, y);
    DiagonalizePreserves(h, 0, 0, y);
    assert y[r.stop] != Zeros(n)[r.stop];
  }

  /** Once elimination completes, the zero vector is the only one the matrix sends to zero. */
  lemma CompletedMeansRegular(s: System, y: Vector)
    requires IsSystem(s) && Diagonalized(s).stop == |s.m|
    requires |y| == |s.m| && Solves(System(s.m, Zeros(|s.m|)), y)
    ensures y == Zeros(|s.m|)
  {
    var n := |s.m|;
    var h := System(s.m, Zeros(n));
    if n > 0 {
      DiagonalizeIgnoresColumn(s, h, 0, 0);
      GaussSolves(h);
      forall q | 0 <= q < n ensures Dot(h.m[q], Zeros(n)) == h.c[q] {
        SumRangeZero(h.m[q], Zeros(n), 0, n);
      }
    }
  }

  // The determinant that the comment on `diagonalize` promises.

  /** The system after pivot step i: lines exchanged if needed, line i normalised, column i cleared below. */
  function PivotStep(s: System, i: nat): (n: System)
    requires IsSystem(s) && i < |s.m| && !(s.m[i][i] == 0.0 && MainItem(s.m, i, i) == -1)
    ensures IsSystem(n) && |n.m| == |s.m|
  {
    var t := Pivot(s, i);
    EliminateBelow(MultiplyLine(t, i, 1.0 / t.m[i][i]), i, i + 1)
  }

  /**
   * The pivots elimination divides by from pivot i on, each read after the
   * row exchange; a final 0 marks the column where it stops for want of one.
   */
  function Pivots(s: System, i: nat): (ps: seq<real>)
    requires IsSystem(s) && i <= |s.m|
    decreases |s.m| - i
  {
    if i == |s.m| then []
    else if s.m[i][i] == 0.0 && MainItem(s.m, i, i) == -1 then [0.0]
    else [Pivot(s, i).m[i][i]] + Pivots(PivotStep(s, i), i + 1)
  }

  function Product(xs: seq<real>): real {
    if |xs| == 0 then 1.0 else xs[0] * Product(xs[1..])
  }

  /**
   * The determinant as elimination finds it: (-1) to the number of row
   * exchanges times the product of the pivots.
   */
  function Determinant(s: System): real
    requires IsSystem(s)
  {
    PowMinusOne(Diagonalized(s).swaps) * Product(Pivots(s, 0))
  }

  /** A product of two reals is zero exactly when a factor is. */
  lemma ZeroFactor(p: real, q: real)
    ensures p * q == 0.0 <==> p == 0.0 || q == 0.0
  {
  }

  /** A product is zero exactly when one of its factors is. */
  lemma {:induction false} ProductZero(xs: seq<real>)
    ensures Product(xs) == 0.0 <==> 0.0 in xs
  {
    if |xs| > 0 {
      ProductZero(xs[1..]);
      ZeroFactor(xs[0], Product(xs[1..]));
      assert xs == [xs[0]] + xs[1..];
    }
  }

  /** The product of a sequence with a first factor prepended. */
  lemma ProductCons(p: real, xs: seq<real>)
    ensures Product([p] + xs) == p * Product(xs)
  {
    assert ([p] + xs)[1..] == xs;
  }

  /** Appending a factor multiplies the product by it. */
  lemma {:induction false} ProductSnoc(xs: seq<real>, p: real)
    ensures Product(xs + [p]) == Product(xs) * p
  {
    if |xs| > 0 {
      assert (xs + [p])[1..] == xs[1..] + [p];
      ProductSnoc(xs[1..], p);
    }
  }

  /** Step i contributes its non-zero pivot, and elimination goes on from i + 1 after the step. */
  /** Past the last column there is nothing left to eliminate and no pivot to multiply in. */
  lemma PivotsAtEnd(s: System, swaps: nat)
    requires IsSystem(s)
    ensures DiagonalizeFrom(s, |s.m|, swaps) == Reduction(s, swaps, |s.m|)
    ensures Pivots(s, |s.m|) == []
  {
  }

  lemma {:induction false} PivotsStep(s: System, i: nat, swaps: nat)
    requires IsSystem(s) && i < |s.m| && !(s.m[i][i] == 0.0 && MainItem(s.m, i, i) == -1)
    ensures Pivots(s, i) == [Pivot(s, i).m[i][i]] + Pivots(PivotStep(s, i), i + 1)
    ensures Pivot(s, i).m[i][i] != 0.0
    ensures DiagonalizeFrom(s, i, swaps) == DiagonalizeFrom(PivotStep(s, i), i + 1, if s.m[i][i] == 0.0 then swaps + 1 else swaps)
  {
    DiagonalizeStep(s, i, swaps);
  }

  /** A zero pivot entry appears exactly when elimination stops early. */
  lemma {:induction false} PivotsZero(s: System, i: nat, swaps: nat)
    requires IsSystem(s) && i <= |s.m|
    ensures 0.0 in Pivots(s, i) <==> DiagonalizeFrom(s, i, swaps).stop < |s.m|
    decreases |s.m| - i
  {
    if i < |s.m| && !(s.m[i][i] == 0.0 && MainItem(s.m, i, i) == -1) {
      PivotsStep(s, i, swaps);
      PivotsZero(PivotStep(s, i), i + 1, if s.m[i][i] == 0.0 then swaps + 1 else swaps);
    }
  }

  /** The matrix sends some non-zero vector to zero. */
  ghost predicate Singular(s: System)
    requires IsSystem(s)
  {
    exists y :: |y| == |s.m| && y != Zeros(|s.m|) && Solves(System(s.m, Zeros(|s.m|)), y)
  }

  /** The determinant is zero exactly when elimination stops early. */
  lemma DeterminantZeroIffStopped(s: System)
    requires IsSystem(s)
    ensures Determinant(s) == 0.0 <==> Diagonalized(s).stop < |s.m|
  {
    PivotsZero(s, 0, 0);
    ProductZero(Pivots(s, 0));
    ZeroFactor(PowMinusOne(Diagonalized(s).swaps), Product(Pivots(s, 0)));
  }

  /** The matrix is singular exactly when elimination stops early. */
  lemma SingularIffStopped(s: System)
    requires IsSystem(s)
    ensures Singular(s) <==> Diagonalized(s).stop < |s.m|
  {
    if Diagonalized(s).stop < |s.m| {
      var y := StoppedMeansSingular(s);
    } else {
      forall y | |y| == |s.m| && Solves(System(s.m, Zeros(|s.m|)), y) ensures y == Zeros(|s.m|) {
        CompletedMeansRegular(s, y);
      }
    }
  }

  /** The determinant is zero exactly when the matrix is singular. */
  lemma DeterminantZeroIffSingular(s: System)
    requires IsSystem(s)
    ensures Determinant(s) == 0.0 <==> Singular(s)
  {
    DeterminantZeroIffStopped(s);
    SingularIffStopped(s);
  }

  /** At the last diagonal entry the pivot is that entry itself and no exchange is made. */
  lemma LastPivot(s: System, swaps: nat)
    requires IsSystem(s) && 1 <= |s.m|
    ensures Pivots(s, |s.m| - 1) == [s.m[|s.m| - 1][|s.m| - 1]]
    ensures DiagonalizeFrom(s, |s.m| - 1, swaps).swaps == swaps
  {
    var i := |s.m| - 1;
    if s.m[i][i] != 0.0 {
      assert Pivots(s, i) == [s.m[i][i]] + Pivots(PivotStep(s, i), i + 1);
    }
  }

  /** On a 1 by 1 matrix the determinant is its only entry. */
  lemma DeterminantOneByOne(s: System)
    requires IsSystem(s) && |s.m| == 1
    ensures Determinant(s) == s.m[0][0]
  {
    LastPivot(s, 0);
    ProductCons(s.m[0][0], []);
  }

  /** On a 2 by 2 matrix (the leading block of a wider one) the determinant is ad - bc. */
  lemma DeterminantTwoByTwo(s: System)
    requires IsSystem(s) && |s.m| == 2
    ensures Determinant(s) == s.m[0][0] * s.m[1][1] - s.m[0][1] * s.m[1][0]
  {
    var a, b, c, d := s.m[0][0], s.m[0][1], s.m[1][0], s.m[1][1];
    if a != 0.0 {
      TwoByTwoPivots(s);
      SecondPivot(s);
      assert Pivot(s, 0) == s;
      assert a * (d - c * (b / a)) == a * d - b * c;
    } else if c != 0.0 {
      assert MainItem(s.m, 0, 0) == 1;
      TwoByTwoPivots(s);
      SecondPivot(s);
      var t := Pivot(s, 0);
      assert t.m[0] == s.m[1] && t.m[1] == s.m[0];
    } else {
      assert MainItem(s.m, 0, 0) == -1;
    }
  }

  /** The determinant of a 2 by 2 system whose elimination finds a first pivot: the sign times both pivots. */
  lemma TwoByTwoPivots(s: System)
    requires IsSystem(s) && |s.m| == 2 && !(s.m[0][0] == 0.0 && MainItem(s.m, 0, 0) == -1)
    ensures Determinant(s) == PowMinusOne(if s.m[0][0] == 0.0 then 1 else 0) * (Pivot(s, 0).m[0][0] * PivotStep(s, 0).m[1][1])
  {
    var n := PivotStep(s, 0);
    PivotsStep(s, 0, 0);
    LastPivot(n, if s.m[0][0] == 0.0 then 1 else 0);
    ProductCons(Pivot(s, 0).m[0][0], [n.m[1][1]]);
    ProductCons(n.m[1][1], []);
  }

  /** Pivot step 0 of a 2 by 2 system leaves d - c b / a on the second diagonal entry (after the exchange). */
  lemma SecondPivot(s: System)
    requires IsSystem(s) && |s.m| == 2 && !(s.m[0][0] == 0.0 && MainItem(s.m, 0, 0) == -1)
    ensures var t := Pivot(s, 0);
      PivotStep(s, 0).m[1][1] == t.m[1][1] - t.m[1][0] * (t.m[0][1] / t.m[0][0])
  {
    var t := Pivot(s, 0);
    var u := MultiplyLine(t, 0, 1.0 / t.m[0][0]);
    assert u.m[0][1] == t.m[0][1] * (1.0 / t.m[0][0]);
    assert u.m[1] == t.m[1];
    var n := MultiplyAndSumLines(u, 1, 0, -u.m[1][0]);
    assert EliminateBelow(u, 0, 1) == EliminateBelow(n, 0, 2) == n;
    assert n.m[1][1] == u.m[1][1] + u.m[0][1] * -u.m[1][0];
  }

  /**
   * `diagonalize` as written returns only the sign (-1)^swaps: for the
   * 1 by 1 matrix [2.0] it returns 1.0, although the determinant is 2.0.
   */
  lemma DiagonalizeReturnsSignOnly(c: real)
    ensures var s := System([[2.0]], [c]);
      && IsSystem(s)
      && PowMinusOne(Diagonalized(s).swaps) == 1.0
      && Determinant(s) == 2.0 != PowMinusOne(Diagonalized(s).swaps)
  {
    var s := System([[2.0]], [c]);
    LastPivot(s, 0);
    DeterminantOneByOne(s);
  }

  // Inversion, one elimination per unit vector.

  /** The system `getInverse` solves for column j: the same matrix, the j-th unit vector as right-hand side. */
  function UnitSystem(s: System, j: nat): (e: System)
    requires IsSystem(s) && j < |s.m|
    ensures IsSystem(e) && e.m == s.m && e.c == Unit(|s.m|, j)
  {
    System(s.m, Unit(|s.m|, j))
  }

  /** `b` is a right inverse of the square matrix `a`: row i of a times column j of b is 1 when i == j, else 0. */
  predicate IsRightInverse(a: Mat, b: Mat)
    requires IsMatrix(a, |a|, |a|) && IsMatrix(b, |a|, |a|)
  {
    forall i, j :: 0 <= i < |a| && 0 <= j < |a| ==> Dot(a[i], Column(b, j)) == Unit(|a|, j)[i]
  }

  /** Whether elimination completes depends only on the matrix, so every unit system is solved too. */
  lemma UnitSystemSolved(s: System, j: nat)
    requires IsSystem(s) && j < |s.m| && Diagonalized(s).stop == |s.m|
    ensures Solves(UnitSystem(s, j), GaussSolve(UnitSystem(s, j)))
  {
    var e := UnitSystem(s, j);
    DiagonalizeIgnoresColumn(s, e, 0, 0);
    GaussSolves(e);
  }

  /** A matrix whose entry (r, c) is coordinate r of the c-th unit solution has those solutions as columns. */
  lemma UnitSolutionColumns(s: System, b: Mat)
    requires IsSystem(s) && 0 < |s.m| && IsMatrix(b, |s.m|, |s.m|)
    requires forall r, c :: 0 <= r < |s.m| && 0 <= c < |s.m| ==> b[r][c] == GaussSolve(UnitSystem(s, c))[r]
    ensures forall j :: 0 <= j < |s.m| ==> Column(b, j) == GaussSolve(UnitSystem(s, j))
  {
    forall j | 0 <= j < |s.m| ensures Column(b, j) == GaussSolve(UnitSystem(s, j)) {
      assert forall r :: 0 <= r < |s.m| ==> Column(b, j)[r] == GaussSolve(UnitSystem(s, j))[r];
    }
  }

  /** Columns made of the unit-system solutions form a right inverse once elimination completes. */
  lemma RightInverse(s: System, b: Mat)
    requires IsSystem(s) && 0 < |s.m| && Width(s) == |s.m| && IsMatrix(b, |s.m|, |s.m|)
    requires Diagonalized(s).stop == |s.m|
    requires forall j :: 0 <= j < |s.m| ==> Column(b, j) == GaussSolve(UnitSystem(s, j))
    ensures IsRightInverse(s.m, b)
  {
    forall i, j | 0 <= i < |s.m| && 0 <= j < |s.m| ensures Dot(s.m[i], Column(b, j)) == Unit(|s.m|, j)[i] {
      UnitSystemSolved(s, j);
    }
  }
}
