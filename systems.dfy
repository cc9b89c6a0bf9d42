/**
 * The abstract state of a linear system (its coefficient rows and its
 * right-hand side) and the four lockstep row operations on it. Each
 * operation changes one matrix row and the matching right-hand-side entry
 * together; the lemmas show that the invertible ones keep the solution set.
 */
module Systems {
  import opened Algebra

  datatype System = System(m: Mat, c: Vector)

  /** The number of coefficients in each row. */
  function Width(s: System): nat {
    if |s.m| == 0 then 0 else |s.m[0]|
  }

  /**
   * A system that the solvers can read: one right-hand-side entry per row,
   * all rows of one length, and at least as many columns as rows.
   */
  predicate IsSystem(s: System) {
    |s.c| == |s.m| && IsMatrix(s.m, |s.m|, Width(s)) && |s.m| <= Width(s)
  }

  predicate InRange(s: System, r: int) {
    0 <= r < |s.m|
  }

  function SwapLines(s: System, l: nat, j: nat): System
    requires |s.c| == |s.m| && l < |s.m| && j < |s.m|
  {
    System(SwapRows(s.m, l, j), Swap(s.c, l, j))
  }

  function MultiplyLine(s: System, r: nat, k: real): System
    requires |s.c| == |s.m| && r < |s.m|
  {
    System(MultiplyRow(s.m, r, k), s.c[r := s.c[r] * k])
  }

  function SumLines(s: System, a: nat, t: nat): System
    requires |s.c| == |s.m| && a < |s.m| && t < |s.m| && |s.m[a]| == |s.m[t]|
  {
    System(SumRows(s.m, a, t), s.c[a := s.c[a] + s.c[t]])
  }

  function MultiplyAndSumLines(s: System, a: nat, t: nat, k: real): System
    requires |s.c| == |s.m| && a < |s.m| && t < |s.m| && |s.m[a]| == |s.m[t]|
  {
    System(MultiplyAndSumRows(s.m, a, t, k), s.c[a := s.c[a] + s.c[t] * k])
  }

  /**
   * `x` satisfies every equation of the system. `x` has one entry per
   * equation and `Dot` reads only that many columns of each row, so for a
   * matrix with more columns than rows this speaks about the leading square
   * block, the columns the solvers use.
   */
  predicate Solves(s: System, x: Vector)
    requires IsSystem(s) && |x| == |s.m|
  {
    forall i :: 0 <= i < |s.m| ==> Dot(s.m[i], x) == s.c[i]
  }

  lemma SwapLinesPreserves(s: System, l: nat, j: nat, x: Vector)
    requires IsSystem(s) && l < |s.m| && j < |s.m| && |x| == |s.m|
    ensures IsSystem(SwapLines(s, l, j))
    ensures Solves(SwapLines(s, l, j), x) <==> Solves(s, x)
  {
    var t := SwapLines(s, l, j);
    if Solves(t, x) {
      forall i | 0 <= i < |s.m| ensures Dot(s.m[i], x) == s.c[i] {
        var i' := if i == l then j else if i == j then l else i;
        assert t.m[i'] == s.m[i] && t.c[i'] == s.c[i];
      }
    }
  }

  lemma MultiplyLinePreserves(s: System, r: nat, k: real, x: Vector)
    requires IsSystem(s) && r < |s.m| && |x| == |s.m|
    requires k != 0.0
    ensures IsSystem(MultiplyLine(s, r, k))
    ensures Solves(MultiplyLine(s, r, k), x) <==> Solves(s, x)
  {
    var t := MultiplyLine(s, r, k);
    forall i | 0 <= i < |s.m|
      ensures Dot(t.m[i], x) == t.c[i] <==> Dot(s.m[i], x) == s.c[i]
    {
      if i == r {
        SumRangeScale(s.m[r], k, x, 0, |x|);
      }
    }
  }

  lemma SumLinesPreserves(s: System, a: nat, t: nat, x: Vector)
    requires IsSystem(s) && a < |s.m| && t < |s.m| && |x| == |s.m|
    requires a != t
    ensures IsSystem(SumLines(s, a, t))
    ensures Solves(SumLines(s, a, t), x) <==> Solves(s, x)
  {
    var u := SumLines(s, a, t);
    SumRangeAdd(s.m[a], s.m[t], x, 0, |x|);
    assert Dot(u.m[a], x) == Dot(s.m[a], x) + Dot(s.m[t], x);
    assert u.m[t] == s.m[t] && u.c[t] == s.c[t];
    forall i | 0 <= i < |s.m| && i != a
      ensures Dot(u.m[i], x) == u.c[i] <==> Dot(s.m[i], x) == s.c[i]
    {
      assert u.m[i] == s.m[i] && u.c[i] == s.c[i];
    }
  }

  lemma MultiplyAndSumLinesPreserves(s: System, a: nat, t: nat, k: real, x: Vector)
    requires IsSystem(s) && a < |s.m| && t < |s.m| && |x| == |s.m|
    requires a != t
    ensures IsSystem(MultiplyAndSumLines(s, a, t, k))
    ensures Solves(MultiplyAndSumLines(s, a, t, k), x) <==> Solves(s, x)
  {
    var u := MultiplyAndSumLines(s, a, t, k);
    SumRangeAddScaled(s.m[a], s.m[t], k, x, 0, |x|);
    assert Dot(u.m[a], x) == Dot(s.m[a], x) + Dot(s.m[t], x) * k;
    assert u.m[t] == s.m[t] && u.c[t] == s.c[t];
    forall i | 0 <= i < |s.m| && i != a
      ensures Dot(u.m[i], x) == u.c[i] <==> Dot(s.m[i], x) == s.c[i]
    {
      assert u.m[i] == s.m[i] && u.c[i] == s.c[i];
    }
  }

  // Each row operation can be undone by another one.

  lemma SwapLinesInvolution(s: System, l: nat, j: nat)
    requires |s.c| == |s.m| && l < |s.m| && j < |s.m|
    ensures SwapLines(SwapLines(s, l, j), l, j) == s
  {
    var t := SwapLines(SwapLines(s, l, j), l, j);
    assert forall i :: 0 <= i < |s.m| ==> t.m[i] == s.m[i];
    assert forall i :: 0 <= i < |s.c| ==> t.c[i] == s.c[i];
  }

  lemma ScaleBack(x: real, k: real)
    requires k != 0.0
    ensures x * k * (1.0 / k) == x
  {
    assert x * k * (1.0 / k) == x * (k * (1.0 / k));
  }

  lemma MultiplyLineInverse(s: System, r: nat, k: real)
    requires |s.c| == |s.m| && r < |s.m| && k != 0.0
    ensures MultiplyLine(MultiplyLine(s, r, k), r, 1.0 / k) == s
  {
    var t := MultiplyLine(MultiplyLine(s, r, k), r, 1.0 / k);
    forall q | 0 <= q < |s.m[r]| ensures t.m[r][q] == s.m[r][q] {
      ScaleBack(s.m[r][q], k);
    }
    assert t.m[r] == s.m[r];
    assert forall i :: 0 <= i < |s.m| ==> t.m[i] == s.m[i];
    ScaleBack(s.c[r], k);
    assert forall i :: 0 <= i < |s.c| ==> t.c[i] == s.c[i];
  }

  lemma MultiplyAndSumLinesInverse(s: System, a: nat, t: nat, k: real)
    requires |s.c| == |s.m| && a < |s.m| && t < |s.m| && |s.m[a]| == |s.m[t]| && a != t
    ensures MultiplyAndSumLines(MultiplyAndSumLines(s, a, t, k), a, t, -k) == s
  {
    var v := MultiplyAndSumLines(s, a, t, k);
    var u := MultiplyAndSumLines(v, a, t, -k);
    assert v.m[t] == s.m[t] && v.c[t] == s.c[t];
    forall q | 0 <= q < |s.m[a]| ensures u.m[a][q] == s.m[a][q] {
      assert s.m[t][q] * -k == -(s.m[t][q] * k);
    }
    assert u.m[a] == s.m[a];
    assert forall i :: 0 <= i < |s.m| ==> u.m[i] == s.m[i];
    assert s.c[t] * -k == -(s.c[t] * k);
    assert forall i :: 0 <= i < |s.c| ==> u.c[i] == s.c[i];
  }

  lemma SumLinesInverse(s: System, a: nat, t: nat)
    requires |s.c| == |s.m| && a < |s.m| && t < |s.m| && |s.m[a]| == |s.m[t]| && a != t
    ensures MultiplyAndSumLines(SumLines(s, a, t), a, t, -1.0) == s
  {
    var v := SumLines(s, a, t);
    var u := MultiplyAndSumLines(v, a, t, -1.0);
    assert v.m[t] == s.m[t] && v.c[t] == s.c[t];
    assert forall q :: 0 <= q < |s.m[a]| ==> u.m[a][q] == s.m[a][q];
    assert u.m[a] == s.m[a];
    assert forall i :: 0 <= i < |s.m| ==> u.m[i] == s.m[i];
    assert forall i :: 0 <= i < |s.c| ==> u.c[i] == s.c[i];
  }
}
