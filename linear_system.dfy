/**
 * The linear system A x = b of the dense solver: a coefficient matrix, a
 * right-hand-side array and the number of equations. It offers the
 * lockstep row operations, forward elimination with partial pivoting,
 * Gaussian elimination, inversion, the tridiagonal sweep, the Jacobi
 * rewriting and the fixed-point iteration.
 *
 * Every method is specified against the value functions of the other
 * modules applied to `State()`; the solvers that work on a copy modify
 * nothing of the receiver, which their missing `modifies` clauses enforce.
 */
module LinearSystems {
  import opened Algebra
  import opened Systems
  import opened Matrices
  import opened Elimination
  import opened Tridiagonal
  import opened Iteration

  datatype Option<T> = None | Some(value: T)

  /** The index guard of `swapLines` as written: it rejects only indices below 0 or above size. */
  predicate SwapGuardAsWritten(l: int, j: int, size: int) {
    !(l < 0 || j < 0 || l > size || j > size)
  }

  /** The guard admits line number `size`, which is not a line of a system with `size` lines. */
  lemma SwapGuardAdmitsSize(s: System)
    ensures SwapGuardAsWritten(|s.m|, 0, |s.m|)
    ensures !InRange(s, |s.m|)
  {
  }

  class LinearSystem {
    const matrix: Matrix
    var column: array<real>
    const size: nat

    /** One right-hand-side entry and one matrix row per equation. */
    ghost predicate Valid()
      reads this, matrix, matrix.data
    {
      column.Length == size && matrix.RowsCount() == size && matrix.Valid()
    }

    /** ... and at least as many columns as equations, which every solver reads. */
    ghost predicate Fits()
      reads this, matrix, matrix.data
    {
      Valid() && size <= matrix.ColumnsCount()
    }

    /** The system as a value: the matrix rows and the right-hand side. */
    ghost function State(): System
      reads this, matrix, column
    {
      System(matrix.cells, column[..])
    }

    lemma FitsIsSystem()
      requires Fits()
      ensures IsSystem(State()) && |State().m| == size
      ensures 0 < size ==> Width(State()) == matrix.ColumnsCount()
    {
    }

    /** The zero system with a rows and b columns. */
    constructor (a: nat, b: nat)
      ensures Valid() && size == a && matrix.ColumnsCount() == b
      ensures State() == System(ZeroMatrix(a, b), Zeros(a))
      ensures fresh(matrix) && fresh(matrix.data) && fresh(column)
    {
      var m := new Matrix(a, b);
      m.SetZeroes();
      var c := new real[a];
      for i := 0 to a
        invariant forall k :: 0 <= k < i ==> c[k] == 0.0
        modifies c
      {
        c[i] := 0.0;
      }
      assert c[..] == Zeros(a);
      matrix, column, size := m, c, a;
    }

    /** A deep copy: equal contents, none of the receiver's storage shared. */
    constructor Copy(other: LinearSystem)
      requires other.Valid()
      ensures Valid() && size == other.size && matrix.ColumnsCount() == other.matrix.ColumnsCount()
      ensures State() == other.State()
      ensures fresh(matrix) && fresh(matrix.data) && fresh(column)
    {
      var m := new Matrix.Copy(other.matrix);
      var c := new real[m.RowsCount()];
      for i := 0 to c.Length
        invariant forall k :: 0 <= k < i ==> c[k] == other.column[k]
        modifies c
      {
        c[i] := other.column[i];
      }
      assert c[..] == other.column[..];
      matrix, column, size := m, c, other.size;
    }

    /** The system of a two-dimensional array and a right-hand side of matching length. */
    constructor OfArrays(a: array2<real>, c: array<real>)
      requires a.Length0 == c.Length
      ensures Valid() && size == a.Length0 && matrix.ColumnsCount() == a.Length1
      ensures State() == System(Grid(a), c[..])
      ensures fresh(matrix) && fresh(matrix.data) && fresh(column)
    {
      var m := new Matrix.FromArray(a);
      var copy := new real[c.Length];
      for i := 0 to copy.Length
        invariant forall k :: 0 <= k < i ==> copy[k] == c[k]
        modifies copy
      {
        copy[i] := c[i];
      }
      assert copy[..] == c[..];
      matrix, column, size := m, copy, a.Length0;
    }

    /** The array constructor: it fails when the matrix and the right-hand side differ in length. */
    static method FromArrays(a: array2<real>, c: array<real>) returns (r: Option<LinearSystem>)
      ensures r.None? <==> a.Length0 != c.Length
      ensures r.Some? ==> && r.value.Valid() && r.value.State() == System(Grid(a), c[..])
                          && fresh(r.value) && fresh(r.value.matrix) && fresh(r.value.matrix.data)
                          && fresh(r.value.column)
    {
      if a.Length0 != c.Length {
        return None;
      }
      var s := new LinearSystem.OfArrays(a, c);
      r := Some(s);
    }

    // The lockstep row operations. Each reports whether its line numbers
    // were in range; when they were not, nothing changes.

    method SwapLines(l: int, j: int) returns (ok: bool)
      requires Valid()
      modifies matrix, matrix.data, column
      ensures Valid()
      ensures ok <==> InRange(old(State()), l) && InRange(old(State()), j)
      ensures ok ==> State() == Systems.SwapLines(old(State()), l, j)
      ensures !ok ==> State() == old(State())
    {
      if !(0 <= l < size && 0 <= j < size) {
        return false;
      }
      ghost var s := State();
      matrix.SwapRows(l, j);
      var tempX := column[l];
      column[l] := column[j];
      column[j] := tempX;
      assert column[..] == Systems.SwapLines(s, l, j).c by {
        assert forall q :: 0 <= q < size ==> column[q] == Systems.SwapLines(s, l, j).c[q];
      }
      ok := true;
    }

    method MultiplyLine(lineNumber: int, k: real) returns (ok: bool)
      requires Valid()
      modifies matrix, matrix.data, column
      ensures Valid()
      ensures ok <==> InRange(old(State()), lineNumber)
      ensures ok ==> State() == Systems.MultiplyLine(old(State()), lineNumber, k)
      ensures !ok ==> State() == old(State())
    {
      if lineNumber < 0 || lineNumber > size - 1 {
        return false;
      }
      ghost var s := State();
      matrix.MultiplyRow(lineNumber, k);
      column[lineNumber] := column[lineNumber] * k;
      assert column[..] == Systems.MultiplyLine(s, lineNumber, k).c by {
        assert forall q :: 0 <= q < size ==> column[q] == Systems.MultiplyLine(s, lineNumber, k).c[q];
      }
      ok := true;
    }

    method SumLines(sumLine: int, termLine: int) returns (ok: bool)
      requires Valid()
      modifies matrix, matrix.data, column
      ensures Valid()
      ensures ok <==> InRange(old(State()), sumLine) && InRange(old(State()), termLine)
      ensures ok ==> State() == Systems.SumLines(old(State()), sumLine, termLine)
      ensures !ok ==> State() == old(State())
    {
      if sumLine < 0 || sumLine > size - 1 || termLine < 0 || termLine > size - 1 {
        return false;
      }
      ghost var s := State();
      matrix.SumRows(sumLine, termLine);
      column[sumLine] := column[sumLine] + column[termLine];
      assert column[..] == Systems.SumLines(s, sumLine, termLine).c by {
        assert forall q :: 0 <= q < size ==> column[q] == Systems.SumLines(s, sumLine, termLine).c[q];
      }
      ok := true;
    }

    method MultiplyAndSumLines(sumLine: int, termLine: int, k: real) returns (ok: bool)
      requires Valid()
      modifies matrix, matrix.data, column
      ensures Valid()
      ensures ok <==> InRange(old(State()), sumLine) && InRange(old(State()), termLine)
      ensures ok ==> State() == Systems.MultiplyAndSumLines(old(State()), sumLine, termLine, k)
      ensures !ok ==> State() == old(State())
    {
      if sumLine < 0 || sumLine > size - 1 || termLine < 0 || termLine > size - 1 {
        return false;
      }
      ghost var s := State();
      matrix.MultiplyAndSumRows(sumLine, termLine, k);
      column[sumLine] := column[sumLine] + column[termLine] * k;
      assert column[..] == Systems.MultiplyAndSumLines(s, sumLine, termLine, k).c by {
        assert forall q :: 0 <= q < size ==> column[q] == Systems.MultiplyAndSumLines(s, sumLine, termLine, k).c[q];
      }
      ok := true;
    }

    /**
     * Forward elimination in place; stops at the first column with no
     * non-zero pivot candidate. `sign` is what `diagonalize` returns as
     * written, (-1) to the number of row exchanges. `det` is the
     * determinant its comment promises: the running product is multiplied
     * by each pivot before that line is normalised and becomes 0 at the
     * `break`.
     */
    method Diagonalize() returns (sign: real, det: real)
      requires Fits()
      modifies matrix, matrix.data, column
      ensures Fits()
      ensures State() == Diagonalized(old(State())).sys
      ensures sign == PowMinusOne(Diagonalized(old(State())).swaps)
      ensures det == Determinant(old(State()))
    {
      ghost var ps;
      var count, determinant;
      count, determinant, ps := EliminationLoop();
      sign := PowMinusOne(count);
      det := Signed(determinant, sign, ps, count);
    }

    /**
     * The loop of `diagonalize`: the number of row exchanges and the running
     * product of the pivots, whose factors the ghost `ps` lists.
     */
    method EliminationLoop() returns (count: nat, determinant: real, ghost ps: seq<real>)
      requires Fits()
      modifies matrix, matrix.data, column
      ensures Fits() && IsSystem(old(State()))
      ensures State() == Diagonalized(old(State())).sys && count == Diagonalized(old(State())).swaps
      ensures ps == Pivots(old(State()), 0) && determinant == Product(ps)
    {
      FitsIsSystem();
      ghost var s0 := State();
      count, determinant, ps := 0, 1.0, [];
      ghost var cur := s0;
      var i := 0;
      // `size` is the row count of the matrix by Valid().
      while i < size
        invariant 0 <= i <= size && Fits() && cur == State() && IsSystem(cur)
        invariant DiagonalizeFrom(cur, i, count) == Diagonalized(s0)
        invariant ps + Pivots(cur, i) == Pivots(s0, 0) && determinant == Product(ps)
      {
        var found;
        found, count, determinant, ps := EliminationPass(i, count, determinant, ps);
        if !found {
          break;
        }
        cur := State();
        i := i + 1;
      }
      if i == size {
        PivotsAtEnd(cur, count);
      }
    }

    /** The running product of the pivots, one pivot further. */
    static method Accumulate(determinant: real, pivot: real, ghost ps: seq<real>) returns (r: real)
      requires determinant == Product(ps)
      ensures r == Product(ps + [pivot])
    {
      r := determinant * pivot;
      ProductSnoc(ps, pivot);
    }

    /** The value `diagonalize` is meant to return: the pivot product with the sign of the exchanges. */
    static method Signed(determinant: real, sign: real, ghost ps: seq<real>, count: nat) returns (r: real)
      requires determinant == Product(ps) && sign == PowMinusOne(count)
      ensures r == PowMinusOne(count) * Product(ps)
    {
      r := determinant * sign;
    }

    /**
     * One pass of the outer loop of `diagonalize` at column i: find a pivot
     * (counting an exchange), multiply the running determinant by it, scale
     * its line, clear the column below it. When there is no pivot, nothing
     * changes, the determinant becomes 0 and elimination ends here. The
     * ghost `ps` lists the pivots multiplied in so far.
     */
    method EliminationPass(i: nat, count: nat, determinant: real, ghost ps: seq<real>)
      returns (found: bool, count': nat, determinant': real, ghost ps': seq<real>)
      requires Fits() && i < size && determinant == Product(ps)
      modifies matrix, matrix.data, column
      ensures Fits() && IsSystem(old(State())) && determinant' == Product(ps')
      ensures found ==> DiagonalizeFrom(State(), i + 1, count') == DiagonalizeFrom(old(State()), i, count)
      ensures found ==> ps' + Pivots(State(), i + 1) == ps + Pivots(old(State()), i)
      ensures !found ==> State() == old(State()) && count' == count
      ensures !found ==> DiagonalizeFrom(old(State()), i, count) == Reduction(old(State()), count, i)
      ensures !found ==> ps' == ps + Pivots(old(State()), i)
    {
      FitsIsSystem();
      ghost var s := State();
      var swapped;
      found, swapped := PivotRow(i);
      count' := count;
      if !found {
        determinant' := Accumulate(determinant, 0.0, ps);
        ps' := ps + [0.0];
        return;
      }
      if swapped {
        count' := count + 1;
      }
      var pivot := matrix.GetValue(i, i);
      determinant' := Accumulate(determinant, pivot, ps);
      ps' := ps + [pivot];
      NormalizeAndClear(i);
      PivotsStep(s, i, count);
    }

    /**
     * The pivot block of `diagonalize` at column i: when the diagonal entry is
     * zero, exchange line i with the pivot row, or report that there is none.
     */
    method PivotRow(i: nat) returns (found: bool, swapped: bool)
      requires Fits() && i < size
      modifies matrix, matrix.data, column
      ensures Fits() && IsSystem(old(State()))
      ensures found <==> !(old(State()).m[i][i] == 0.0 && MainItem(old(State()).m, i, i) == -1)
      ensures swapped <==> found && old(State()).m[i][i] == 0.0
      ensures found ==> State() == Pivot(old(State()), i)
      ensures !found ==> State() == old(State())
    {
      FitsIsSystem();
      found, swapped := true, false;
      if matrix.CheckZero(i, i) {
        var number := matrix.SelectMainItem(i, i);
        if number == -1 {
          return false, false;
        }
        var exchanged := SwapLines(number, i);
        swapped := true;
      }
    }

    /** The rest of one pass of `diagonalize`: scale line i to a unit pivot, then clear below it. */
    method NormalizeAndClear(i: nat)
      requires Fits() && i < size && IsSystem(State()) && State().m[i][i] != 0.0
      modifies matrix, matrix.data, column
      ensures Fits()
      ensures State() == EliminateBelow(Systems.MultiplyLine(old(State()), i, 1.0 / old(State()).m[i][i]), i, i + 1)
    {
      FitsIsSystem();
      var scaled := MultiplyLine(i, 1.0 / matrix.GetValue(i, i));
      ClearBelow(i);
    }

    /** The inner loop of `diagonalize`: clear column i below the pivot row. */
    method ClearBelow(i: nat)
      requires Fits() && i < size
      modifies matrix, matrix.data, column
      ensures Fits() && IsSystem(old(State()))
      ensures State() == EliminateBelow(old(State()), i, i + 1)
    {
      FitsIsSystem();
      ghost var u := State();
      var j := i + 1;
      while j < matrix.RowsCount()
        invariant i + 1 <= j <= size && Fits() && Width(State()) == Width(u)
        invariant EliminateBelow(State(), i, j) == EliminateBelow(u, i, i + 1)
      {
        FitsIsSystem();
        ghost var v := State();
        var added := MultiplyAndSumLines(j, i, -matrix.GetValue(j, i));
        EliminateBelowStep(v, i, j);
        j := j + 1;
      }
    }

    /** Elimination on a copy followed by back-substitution; the receiver is left as it was. */
    method GaussianElimination() returns (x: array<real>)
      requires Fits() && 1 <= size
      ensures fresh(x) && x.Length == size
      ensures x[..] == GaussSolve(State())
      ensures Diagonalized(State()).stop == size ==> Solves(State(), x[..])
    {
      FitsIsSystem();
      ghost var s0 := State();
      var temp := new LinearSystem.Copy(this);
      var sign, det := temp.Diagonalize();
      x := temp.BackSubstitute();
      if Diagonalized(s0).stop == size {
        GaussSolves(s0);
      }
    }

    /** The back-substitution loop of `gaussianElimination`, run on the eliminated copy. */
    method BackSubstitute() returns (x: array<real>)
      requires Fits() && 1 <= size
      ensures fresh(x) && x.Length == size
      ensures IsSystem(State()) && x[..] == BackSubst(State())
    {
      FitsIsSystem();
      ghost var u := State();
      x := new real[matrix.RowsCount()](_ => 0.0);
      var n := x.Length;
      x[n - 1] := column[n - 1];
      assert x[..] == Fill(u, n - 1, n - 1);
      var i := n - 2;
      while i >= 0
        invariant -1 <= i <= n - 2 && Fits() && State() == u
        invariant x[..] == Fill(u, n - 1, i + 1)
        modifies x
      {
        var sum := TailSum(i, x);
        x[i] := column[i] - sum;
        i := i - 1;
      }
    }

    /** The inner loop of back-substitution: the sum of m[i][j] * x[j] over j > i, from the right. */
    method TailSum(i: nat, x: array<real>) returns (sum: real)
      requires Fits() && i < size && x.Length == size
      ensures IsSystem(State()) && sum == SumRange(State().m[i], x[..], i + 1, size)
    {
      FitsIsSystem();
      ghost var row, xs := State().m[i], x[..];
      sum := 0.0;
      var j := size - 1;
      while j > i
        invariant i <= j <= size - 1
        invariant sum == SumRange(row, xs, j + 1, size)
      {
        sum := sum + matrix.GetValue(i, j) * x[j];
        j := j - 1;
      }
    }

    /**
     * The inverse, column by column: column i is Gaussian elimination on a
     * copy whose right-hand side is the i-th unit vector.
     */
    method GetInverse() returns (inv: Matrix)
      requires Valid() && (size == 0 || size == matrix.ColumnsCount())
      ensures fresh(inv) && fresh(inv.data)
      ensures inv.Valid() && inv.RowsCount() == size && inv.ColumnsCount() == matrix.ColumnsCount()
      ensures 0 < size ==> forall j :: 0 <= j < size ==> Column(inv.cells, j) == GaussSolve(UnitSystem(State(), j))
      ensures 0 < size && Diagonalized(State()).stop == size ==> IsRightInverse(matrix.cells, inv.cells)
    {
      ghost var s := State();
      inv := new Matrix(matrix.RowsCount(), matrix.ColumnsCount());
      var i := 0;
      while i < inv.RowsCount()
        invariant 0 <= i <= size && inv.Valid() && Valid() && State() == s
        invariant forall r, c :: 0 <= r < size && 0 <= c < i ==> inv.cells[r][c] == GaussSolve(UnitSystem(State(), c))[r]
        modifies inv, inv.data
      {
        var iColumn := UnitSolve(i);
        StoreColumn(inv, i, iColumn);
        i := i + 1;
      }
      if 0 < size {
        UnitSolutionColumns(s, inv.cells);
        if Diagonalized(s).stop == size {
          RightInverse(s, inv.cells);
        }
      }
    }

    /** One pass of the inversion loop: Gaussian elimination on a copy whose right-hand side is e_i. */
    method UnitSolve(i: nat) returns (iColumn: array<real>)
      requires Valid() && size == matrix.ColumnsCount() && i < size
      ensures iColumn.Length == size
      ensures IsSystem(State()) && iColumn[..] == GaussSolve(UnitSystem(State(), i))
    {
      FitsIsSystem();
      var temp := new LinearSystem.Copy(this);
      var unitColumn := new real[matrix.RowsCount()](_ => 0.0);
      unitColumn[i] := 1.0;
      temp.column := unitColumn;
      assert unitColumn[..] == Unit(size, i);
      assert temp.State() == UnitSystem(State(), i);
      iColumn := temp.GaussianElimination();
    }

    /** The column store of the inversion loop: entry (j, i) of `inv` becomes v[j] for every column index j. */
    static method StoreColumn(inv: Matrix, i: nat, v: array<real>)
      requires inv.Valid() && inv.ColumnsCount() <= inv.RowsCount() && inv.ColumnsCount() <= v.Length
      requires i < inv.ColumnsCount()
      modifies inv, inv.data
      ensures inv.Valid()
      ensures forall r, c :: 0 <= r < inv.RowsCount() && 0 <= c < inv.ColumnsCount() ==>
        inv.cells[r][c] == if c == i && r < inv.ColumnsCount() then v[r] else old(inv.cells)[r][c]
    {
      ghost var m := inv.cells;
      var j := 0;
      while j < inv.ColumnsCount()
        invariant 0 <= j <= inv.ColumnsCount() && inv.Valid()
        invariant forall r, c :: 0 <= r < inv.RowsCount() && 0 <= c < inv.ColumnsCount() ==>
          inv.cells[r][c] == if c == i && r < j then v[r] else m[r][c]
      {
        inv.SetValue(j, i, v[j]);
        j := j + 1;
      }
    }

    /** The Thomas sweep: forward coefficients ps and qs, then the backward recurrence. */
    method TridiagonalAlgorithm() returns (xs: array<real>)
      requires Fits() && 2 <= size && Sweepable(State())
      ensures fresh(xs) && xs.Length == size
      ensures Recurrence(State(), xs[..])
      ensures TriSolves(State(), xs[..])
      ensures IsTridiagonal(State()) ==> Solves(State(), xs[..])
      ensures IsTridiagonal(State()) ==> Diagonalized(State()).stop == size && xs[..] == GaussSolve(State())
    {
      ghost var s := State();
      var ps, qs := SweepCoefficients();
      xs := BackwardSweep(ps, qs);
      ghost var x := xs[..];
      assert BackwardRecurrence(ps[..], qs[..], x);
      SweptRecurrence(s, ps[..], qs[..], x);
      SweepConclusions(s, x);
    }

    /** The forward sweep: ps[i] and qs[i] from ps[i-1] and qs[i-1]. */
    method SweepCoefficients() returns (ps: array<real>, qs: array<real>)
      requires Fits() && 2 <= size && Sweepable(State())
      ensures ps.Length == size - 1 && qs.Length == size
      ensures PsAgree(State(), ps[..], size - 1) && QsAgree(State(), qs[..], size)
    {
      ghost var s := State();
      ps := new real[size - 1];
      qs := new real[size];
      ps[0], qs[0] := SweepFirstStep(s, matrix.GetValue(0, 0), matrix.GetValue(0, 1), column[0]);
      var i := 1;
      while i < size - 1
        invariant 1 <= i <= size - 1 && Fits() && State() == s
        invariant PsAgree(s, ps[..], i) && QsAgree(s, qs[..], i)
        modifies ps, qs
      {
        ForwardStep(s, i, ps, qs);
        i := i + 1;
      }
      qs[size - 1] := SweepLastStep(s, matrix.GetValue(size - 1, size - 2), matrix.GetValue(size - 1, size - 1),
                                    column[size - 1], ps[size - 2], qs[size - 2]);
    }

    /** One pass of the forward loop: ps[i] and qs[i] from row i and the previous coefficients. */
    method ForwardStep(ghost s: System, i: nat, ps: array<real>, qs: array<real>)
      requires Fits() && State() == s && Banded(s) && Sweepable(s) && 1 <= i < size - 1
      requires ps.Length == size - 1 && qs.Length == size && ps != column && qs != column && ps != qs
      requires PsAgree(s, ps[..], i) && QsAgree(s, qs[..], i)
      modifies ps, qs
      ensures PsAgree(s, ps[..], i + 1) && QsAgree(s, qs[..], i + 1)
    {
      var p, q := SweepStep(s, i, matrix.GetValue(i, i - 1), matrix.GetValue(i, i), matrix.GetValue(i, i + 1),
                            column[i], ps[i - 1], qs[i - 1]);
      ps[i], qs[i] := p, q;
    }

    /** The first step of the forward sweep, on the entries of row 0. */
    static method SweepFirstStep(ghost s: System, b: real, c: real, d: real) returns (p: real, q: real)
      requires Banded(s) && Sweepable(s)
      requires b == s.m[0][0] && c == s.m[0][1] && d == s.c[0]
      ensures p == P(s, 0) && q == Q(s, 0)
    {
      p := c / b / -1.0;
      q := d / b;
    }

    /** One step of the forward sweep, on the entries of row i and the previous coefficients. */
    static method SweepStep(ghost s: System, i: nat, a: real, b: real, c: real, d: real, pPrev: real, qPrev: real)
      returns (p: real, q: real)
      requires Banded(s) && Sweepable(s) && 1 <= i < |s.m| - 1
      requires a == s.m[i][i - 1] && b == s.m[i][i] && c == s.m[i][i + 1] && d == s.c[i]
      requires pPrev == P(s, i - 1) && qPrev == Q(s, i - 1)
      ensures p == P(s, i) && q == Q(s, i)
    {
      var den := -1.0 * b - a * pPrev;
      assert den == Denom(s, i) != 0.0;
      p := c / den;
      q := (a * qPrev - d) / den;
      PStep(s, i);
      QStep(s, i);
    }

    /** The last step of the forward sweep: q[n-1], with no p[n-1]. */
    static method SweepLastStep(ghost s: System, a: real, b: real, d: real, pPrev: real, qPrev: real)
      returns (q: real)
      requires Banded(s) && Sweepable(s)
      requires a == s.m[|s.m| - 1][|s.m| - 2] && b == s.m[|s.m| - 1][|s.m| - 1] && d == s.c[|s.m| - 1]
      requires pPrev == P(s, |s.m| - 2) && qPrev == Q(s, |s.m| - 2)
      ensures q == Q(s, |s.m| - 1)
    {
      var den := -1.0 * b - a * pPrev;
      assert den == Denom(s, |s.m| - 1) != 0.0;
      q := (a * qPrev - d) / den;
      QStep(s, |s.m| - 1);
    }

    /** The backward sweep: xs[n-1] = qs[n-1], xs[i] = ps[i] * xs[i+1] + qs[i]. */
    static method BackwardSweep(ps: array<real>, qs: array<real>) returns (xs: array<real>)
      requires 1 <= qs.Length && ps.Length == qs.Length - 1
      ensures fresh(xs) && xs.Length == qs.Length && xs[qs.Length - 1] == qs[qs.Length - 1]
      ensures forall i :: 0 <= i < qs.Length - 1 ==> xs[i] == ps[i] * xs[i + 1] + qs[i]
    {
      var size := qs.Length;
      xs := new real[size];
      xs[size - 1] := qs[size - 1];
      var i := size - 2;
      while i >= 0
        invariant -1 <= i <= size - 2
        invariant xs[size - 1] == qs[size - 1]
        invariant forall q :: i < q < size - 1 ==> xs[q] == ps[q] * xs[q + 1] + qs[q]
        modifies xs
      {
        xs[i] := ps[i] * xs[i + 1] + qs[i];
        i := i - 1;
      }
    }

    /** The Jacobi form x = C x + d, built on a copy. */
    method GetRepresentation() returns (r: LinearSystem)
      requires Fits() && DiagonalFrom(State(), 0)
      ensures fresh(r) && fresh(r.matrix) && fresh(r.matrix.data) && fresh(r.column)
      ensures r.Fits() && r.size == size
      ensures r.State() == Representation(State())
    {
      r := new LinearSystem.Copy(this);
      r.RewriteRows();
    }

    /** The loop of `getRepresentation`, run on the copy: rewrite every line in turn. */
    method RewriteRows()
      requires Fits() && DiagonalFrom(State(), 0)
      modifies matrix, matrix.data, column
      ensures Fits() && State() == Representation(old(State()))
    {
      FitsIsSystem();
      ghost var s0 := State();
      ghost var cur := s0;
      var i := 0;
      while i < size
        invariant 0 <= i <= size && Fits() && State() == cur && IsSystem(cur) && |cur.m| == size
        invariant DiagonalFrom(cur, i) && RepresentationFrom(cur, i) == Representation(s0)
      {
        RewriteRow(i);
        RepresentationStep(cur, i);
        cur := RepStep(cur, i);
        i := i + 1;
      }
    }

    /** One pass of `getRepresentation`: scale line i by -1 / a_ii, zero the diagonal, negate b_i. */
    method RewriteRow(i: nat)
      requires Fits() && i < size && IsSystem(State()) && State().m[i][i] != 0.0
      modifies matrix, matrix.data, column
      ensures Fits() && State() == RepStep(old(State()), i)
    {
      FitsIsSystem();
      ghost var t := State();
      var scaled := MultiplyLine(i, -1.0 / matrix.GetValue(i, i));
      matrix.SetValue(i, i, 0.0);
      column[i] := column[i] * -1.0;
      assert column[..] == RepStep(t, i).c by {
        assert forall q :: 0 <= q < size ==> column[q] == RepStep(t, i).c[q];
      }
    }

    /** The largest absolute value in x, or 0 when x is empty. */
    static method GetMaxFromVector(x: array<real>) returns (max: real)
      ensures max == MaxNorm(x[..])
      ensures 0.0 <= max && forall i :: 0 <= i < x.Length ==> Abs(x[i]) <= max
      ensures max == 0.0 || exists i :: 0 <= i < x.Length && Abs(x[i]) == max
    {
      max := 0.0;
      for i := 0 to x.Length
        invariant max == MaxNorm(x[..i])
      {
        assert x[..i + 1][..i] == x[..i];
        if max < Abs(x[i]) {
          max := Abs(x[i]);
        }
      }
      assert x[..] == x[..x.Length];
      MaxNormBounds(x[..]);
    }

    /**
     * Simple iteration from the zero vector on the Jacobi form, until a
     * sweep moves no coordinate by more than eps, or `fuel` sweeps are done.
     */
    method FixedPointIteration(eps: real, fuel: nat) returns (x: array<real>, steps: nat, converged: bool)
      requires Fits() && DiagonalFrom(State(), 0)
      ensures fresh(x) && x.Length == size && steps <= fuel
      ensures x[..] == Iterate(Representation(State()), steps)
      ensures forall k :: 1 <= k < steps ==> Delta(Representation(State()), k) > eps
      ensures converged <==> 1 <= steps && Delta(Representation(State()), steps) <= eps
      ensures !converged ==> steps == fuel
      ensures converged ==> forall i :: 0 <= i < size ==>
        Abs(x[i] - Iterate(Representation(State()), steps - 1)[i]) <= eps
      ensures converged && eps <= 0.0 ==> Solves(State(), x[..])
    {
      FitsIsSystem();
      var linearSystem := GetRepresentation();
      x, steps, converged := linearSystem.Iterations(eps, fuel);
      ghost var R := linearSystem.State();
      if converged {
        DeltaBounds(R, steps);
        ghost var last, before := Iterate(R, steps), Iterate(R, steps - 1);
        assert forall i :: 0 <= i < size ==> Abs(x[i] - before[i]) <= eps by {
          assert forall i :: 0 <= i < size ==> x[i] == last[i];
        }
        if eps <= 0.0 {
          ExactConvergenceSolves(State(), steps);
        }
      }
    }

    /**
     * The do-while loop of `fixedPointIteration`, run on a system already in
     * the form x = C x + d (this one): sweep from the zero vector until the
     * largest coordinate change is at most eps, or `fuel` sweeps are done.
     */
    method Iterations(eps: real, fuel: nat) returns (x: array<real>, steps: nat, converged: bool)
      requires Fits()
      ensures fresh(x) && x.Length == size && steps <= fuel
      ensures IsSystem(State()) && x[..] == Iterate(State(), steps)
      ensures forall k :: 1 <= k < steps ==> Delta(State(), k) > eps
      ensures converged <==> 1 <= steps && Delta(State(), steps) <= eps
      ensures !converged ==> steps == fuel
    {
      FitsIsSystem();
      ghost var R := State();
      var xFirsts := new real[size](_ => 0.0);
      var xSeconds := new real[size](_ => 0.0);
      var w := new real[size](_ => 0.0);
      steps, converged := 0, false;
      assert xSeconds[..] == Iterate(R, 0);
      while steps < fuel && !converged
        invariant steps <= fuel && Fits() && State() == R
        invariant xSeconds[..] == Iterate(R, steps)
        invariant forall k :: 1 <= k < steps ==> Delta(R, k) > eps
        invariant converged <==> 1 <= steps && Delta(R, steps) <= eps
        modifies xFirsts, xSeconds, w
        decreases fuel - steps
      {
        var maxVectorCoord := IterationPass(xFirsts, xSeconds, w, R, steps);
        steps := steps + 1;
        converged := !(maxVectorCoord > eps);
      }
      x := xSeconds;
    }

    /**
     * The body of the do-while loop: keep the old iterate in xFirsts, sweep
     * into xSeconds, and measure the largest change through w.
     */
    method IterationPass(xFirsts: array<real>, xSeconds: array<real>, w: array<real>, ghost r: System, ghost k: nat)
      returns (maxVectorCoord: real)
      requires Fits() && State() == r && IsSystem(r)
      requires xFirsts.Length == size && xSeconds.Length == size && w.Length == size
      requires xFirsts != xSeconds && xFirsts != w && xSeconds != w
      requires xFirsts != column && xSeconds != column && w != column
      requires xSeconds[..] == Iterate(r, k)
      modifies xFirsts, xSeconds, w
      ensures xSeconds[..] == Iterate(r, k + 1)
      ensures maxVectorCoord == Delta(r, k + 1)
    {
      CopyVector(xFirsts, xSeconds);
      Sweep(xFirsts, xSeconds);
      IterateStep(r, k, xFirsts[..], xSeconds[..]);
      Difference(w, xSeconds, xFirsts);
      maxVectorCoord := GetMaxFromVector(w);
    }

    /** The first loop of an iteration: xFirsts := xSeconds, entry by entry. */
    static method CopyVector(dst: array<real>, src: array<real>)
      requires dst != src && dst.Length == src.Length
      modifies dst
      ensures dst[..] == src[..]
    {
      for i := 0 to dst.Length
        invariant forall k :: 0 <= k < i ==> dst[k] == src[k]
      {
        dst[i] := src[i];
      }
    }

    /** The second loop of an iteration: one Jacobi sweep of this system from x into y. */
    method Sweep(x: array<real>, y: array<real>)
      requires Fits() && x.Length == size && y.Length == size && x != y && y != column
      modifies y
      ensures y[..] == Step(State(), x[..])
    {
      FitsIsSystem();
      for i := 0 to size
        invariant forall k :: 0 <= k < i ==> y[k] == Step(State(), x[..])[k]
      {
        var sum := OffDiagonalSum(i, x);
        y[i] := column[i] + sum;
      }
    }

    /** The innermost loop of an iteration: the sum of m[i][j] * x[j] over j != i. */
    method OffDiagonalSum(i: nat, x: array<real>) returns (sum: real)
      requires Fits() && i < size && x.Length == size
      ensures IsSystem(State()) && sum == Dot(State().m[i][i := 0.0], x[..])
    {
      FitsIsSystem();
      ghost var row, xs := State().m[i][i := 0.0], x[..];
      sum := 0.0;
      for j := 0 to size
        invariant sum == SumRange(row, xs, 0, j)
      {
        SumRangeLast(row, xs, 0, j);
        if i != j {
          assert matrix.GetValue(i, j) == row[j];
          sum := sum + matrix.GetValue(i, j) * x[j];
        } else {
          assert row[j] * xs[j] == 0.0;
        }
      }
    }

    /** The third loop of an iteration: w := a - b, entry by entry. */
    static method Difference(w: array<real>, a: array<real>, b: array<real>)
      requires w != a && w != b && w.Length == a.Length == b.Length
      modifies w
      ensures w[..] == Sub(a[..], b[..])
    {
      for i := 0 to w.Length
        invariant forall k :: 0 <= k < i ==> w[k] == a[k] - b[k]
      {
        w[i] := a[i] - b[i];
      }
    }
  }
}
