/**
 * The simple-iteration (Jacobi) method on values: the rewriting of
 * A x = b into x = C x + d that `getRepresentation` performs row by row,
 * one sweep of `fixedPointIteration`, the sequence of iterates from the
 * zero vector, and the distance between successive iterates that the loop
 * tests against eps.
 *
 * Proved here: the rewriting has the closed form C[i][j] = -A[i][j] / A[i][i]
 * (j != i), C[i][i] = 0, d[i] = b[i] / A[i][i]; its fixed points are exactly
 * the solutions of the original system; and an iteration that stops moving
 * has reached a solution.
 */
module Iteration {
  import opened Algebra
  import opened Systems
  import opened Elimination

  /** Every diagonal entry from row i down is non-zero. */
  predicate DiagonalFrom(s: System, i: nat)
    requires IsSystem(s)
  {
    forall k :: i <= k < |s.m| ==> s.m[k][k] != 0.0
  }

  /**
   * Step i of the rewriting: scale line i by -1 / A[i][i], clear the
   * diagonal entry, then negate the right-hand side entry.
   */
  function RepStep(s: System, i: nat): (t: System)
    requires IsSystem(s) && i < |s.m| && s.m[i][i] != 0.0
    ensures IsSystem(t) && |t.m| == |s.m| && Width(t) == Width(s)
    ensures forall r :: 0 <= r < |s.m| && r != i ==> t.m[r] == s.m[r] && t.c[r] == s.c[r]
  {
    var u := MultiplyLine(s, i, -1.0 / s.m[i][i]);
    System(SetCell(u.m, i, i, 0.0), u.c[i := u.c[i] * -1.0])
  }

  /** The rewriting from row i on. */
  function RepresentationFrom(s: System, i: nat): (t: System)
    requires IsSystem(s) && i <= |s.m| && DiagonalFrom(s, i)
    ensures IsSystem(t) && |t.m| == |s.m| && Width(t) == Width(s)
    decreases |s.m| - i
  {
    if i == |s.m| then s
    else RepresentationFrom(RepStep(s, i), i + 1)
  }

  /** One row of the rewriting, unfolded. */
  lemma RepresentationStep(s: System, i: nat)
    requires IsSystem(s) && i < |s.m| && DiagonalFrom(s, i)
    ensures DiagonalFrom(RepStep(s, i), i + 1)
    ensures RepresentationFrom(s, i) == RepresentationFrom(RepStep(s, i), i + 1)
  {
    var t := RepStep(s, i);
    assert forall k :: i + 1 <= k < |s.m| ==> t.m[k] == s.m[k];
  }

  /** The system x = C x + d that `getRepresentation` returns. */
  function Representation(s: System): (r: System)
    requires IsSystem(s) && DiagonalFrom(s, 0)
    ensures IsSystem(r) && |r.m| == |s.m| && Width(r) == Width(s)
  {
    RepresentationFrom(s, 0)
  }

  /** Row r of the rewritten system, in terms of the original row. */
  predicate RewrittenRow(s: System, t: System, r: nat)
    requires IsSystem(s) && |t.m| == |s.m| && |t.c| == |s.c| && r < |s.m| && s.m[r][r] != 0.0
  {
    var k := -1.0 / s.m[r][r];
    && t.m[r] == Scale(s.m[r], k)[r := 0.0]
    && t.c[r] == s.c[r] * k * -1.0
  }

  lemma {:induction false} RepresentationFromRows(s: System, i: nat)
    requires IsSystem(s) && i <= |s.m| && DiagonalFrom(s, i)
    ensures var t := RepresentationFrom(s, i);
      && (forall r :: 0 <= r < i ==> t.m[r] == s.m[r] && t.c[r] == s.c[r])
      && (forall r :: i <= r < |s.m| ==> RewrittenRow(s, t, r))
    decreases |s.m| - i
  {
    if i < |s.m| {
      var u := RepStep(s, i);
      var t := RepresentationFrom(u, i + 1);
      assert RewrittenRow(s, u, i);
      RepresentationFromRows(u, i + 1);
      forall r | i <= r < |s.m| ensures RewrittenRow(s, t, r) {
        if r > i {
          assert RewrittenRow(u, t, r);
          assert u.m[r] == s.m[r] && u.c[r] == s.c[r];
        }
      }
    }
  }

  /** The rewriting, row by row: C[i] is row i scaled by -1 / A[i][i] with its diagonal cleared. */
  lemma RepresentationRows(s: System)
    requires IsSystem(s) && DiagonalFrom(s, 0)
    ensures |Representation(s).m| == |s.m|
    ensures forall r :: 0 <= r < |s.m| ==> RewrittenRow(s, Representation(s), r)
  {
    var t := Representation(s);
    assert t == RepresentationFrom(s, 0);
    RepresentationFromRows(s, 0);
    forall r | 0 <= r < |s.m| ensures RewrittenRow(s, t, r) {
      assert RewrittenRow(s, RepresentationFrom(s, 0), r);
    }
  }

  /** The closed form of the rewriting. */
  lemma RepresentationClosedForm(s: System)
    requires IsSystem(s) && DiagonalFrom(s, 0)
    ensures var t := Representation(s);
      && |t.m| == |s.m| && Width(t) == Width(s)
      && (forall i, j :: 0 <= i < |s.m| && 0 <= j < Width(s) ==>
            t.m[i][j] == if i == j then 0.0 else -s.m[i][j] / s.m[i][i])
      && (forall i :: 0 <= i < |s.m| ==> t.c[i] == s.c[i] / s.m[i][i])
  {
    var t := Representation(s);
    RepresentationRows(s);
    forall i, j | 0 <= i < |s.m| && 0 <= j < Width(s)
      ensures t.m[i][j] == if i == j then 0.0 else -s.m[i][j] / s.m[i][i]
    {
      assert RewrittenRow(s, t, i);
    }
    forall i | 0 <= i < |s.m| ensures t.c[i] == s.c[i] / s.m[i][i] {
      assert RewrittenRow(s, t, i);
    }
  }

  /** One sweep: y[i] = d[i] + the sum over j != i of C[i][j] * x[j]. */
  function Step(r: System, x: Vector): (y: Vector)
    requires IsSystem(r) && |x| == |r.m|
    ensures |y| == |x|
  {
    seq(|x|, i requires 0 <= i < |x| => r.c[i] + Dot(r.m[i][i := 0.0], x))
  }

  /** The k-th iterate from the zero vector. */
  function Iterate(r: System, k: nat): (x: Vector)
    requires IsSystem(r)
    ensures |x| == |r.m|
  {
    if k == 0 then Zeros(|r.m|) else Step(r, Iterate(r, k - 1))
  }

  /** The largest coordinate change made by sweep k. */
  function Delta(r: System, k: nat): (d: real)
    requires IsSystem(r) && 1 <= k
    ensures 0.0 <= d
  {
    MaxNorm(Sub(Iterate(r, k), Iterate(r, k - 1)))
  }

  /** One sweep from the k-th iterate gives the next one and the change that sweep makes. */
  lemma IterateStep(r: System, k: nat, prev: Vector, next: Vector)
    requires IsSystem(r) && prev == Iterate(r, k) && next == Step(r, prev)
    ensures next == Iterate(r, k + 1)
    ensures Delta(r, k + 1) == MaxNorm(Sub(next, prev))
  {
  }

  /** Row i of the sweep, as a function of the original row. */
  lemma StepRow(s: System, x: Vector, i: nat)
    requires IsSystem(s) && DiagonalFrom(s, 0) && |x| == |s.m| && i < |s.m|
    ensures Step(Representation(s), x)[i] == x[i] + (s.c[i] - Dot(s.m[i], x)) / s.m[i][i]
  {
    var t, a, k := Representation(s), s.m[i][i], -1.0 / s.m[i][i];
    RepresentationRows(s);
    assert RewrittenRow(s, t, i);
    var row := Scale(s.m[i], k);
    assert t.m[i][i := 0.0] == row[i := 0.0];
    DotMasked(row, x, i);
    SumRangeScale(s.m[i], k, x, 0, |x|);
    assert Dot(row, x) == Dot(s.m[i], x) * k;
    assert row[i] * x[i] == a * k * x[i];
    assert a * k == -1.0;
  }

  /** The fixed points of the rewritten system are exactly the solutions of the original. */
  lemma JacobiFixedPoint(s: System, x: Vector)
    requires IsSystem(s) && DiagonalFrom(s, 0) && |x| == |s.m|
    ensures Step(Representation(s), x) == x <==> Solves(s, x)
  {
    var y := Step(Representation(s), x);
    forall i | 0 <= i < |s.m| ensures y[i] == x[i] <==> Dot(s.m[i], x) == s.c[i] {
      StepRow(s, x, i);
    }
    if Solves(s, x) {
      assert forall i :: 0 <= i < |x| ==> y[i] == x[i];
    }
  }

  /** An iteration whose last sweep moved nothing has landed on a solution. */
  lemma ExactConvergenceSolves(s: System, k: nat)
    requires IsSystem(s) && DiagonalFrom(s, 0) && 1 <= k
    requires Delta(Representation(s), k) <= 0.0
    ensures Solves(s, Iterate(Representation(s), k))
  {
    var r := Representation(s);
    var x, y := Iterate(r, k - 1), Iterate(r, k);
    MaxNormZero(Sub(y, x));
    forall i | 0 <= i < |x| ensures y[i] == x[i] {
      assert Sub(y, x)[i] == y[i] - x[i] == 0.0;
    }
    assert y == x;
    JacobiFixedPoint(s, x);
  }

  /** The stopping test bounds every coordinate's last change. */
  lemma DeltaBounds(r: System, k: nat)
    requires IsSystem(r) && 1 <= k
    ensures forall i :: 0 <= i < |r.m| ==> Abs(Iterate(r, k)[i] - Iterate(r, k - 1)[i]) <= Delta(r, k)
  {
    var v := Sub(Iterate(r, k), Iterate(r, k - 1));
    MaxNormBounds(v);
    assert forall i :: 0 <= i < |r.m| ==> v[i] == Iterate(r, k)[i] - Iterate(r, k - 1)[i];
  }
  /** A fixed point reached by the iteration is the answer of Gaussian elimination when that completes. */
  lemma FixedPointAgreesWithGauss(s: System, k: nat)
    requires IsSystem(s) && 0 < |s.m| && DiagonalFrom(s, 0) && 1 <= k
    requires Delta(Representation(s), k) <= 0.0
    requires Diagonalized(s).stop == |s.m|
    ensures Iterate(Representation(s), k) == GaussSolve(s)
  {
    ExactConvergenceSolves(s, k);
    GaussSolves(s);
  }
}
