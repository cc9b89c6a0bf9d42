/**
 * The mutable matrix the linear system owns: a `rows x cols` grid of cells
 * with the row-level primitives the solvers call (swap, scale, add a row,
 * add a scaled row), cell access, zero-filling and the pivot query.
 * Its value is the ghost field `cells`; every operation states the new value
 * in terms of the row transformations of module Algebra.
 */
module Matrices {
  import opened Algebra

  /**
   * The pivot scan: from row k down, keep the first row whose entry in
   * column `col` is strictly larger in absolute value than the best so far.
   */
  function PivotScan(m: Mat, col: nat, k: nat, best: int, bestAbs: real): (p: int)
    requires k <= |m| && forall r :: 0 <= r < |m| ==> col < |m[r]|
    decreases |m| - k
  {
    if k == |m| then best
    else if bestAbs < Abs(m[k][col]) then PivotScan(m, col, k + 1, k, Abs(m[k][col]))
    else PivotScan(m, col, k + 1, best, bestAbs)
  }

  lemma {:induction false} PivotScanSpec(m: Mat, col: nat, from: nat, k: nat, best: int, bestAbs: real)
    requires from <= k <= |m| && forall r :: 0 <= r < |m| ==> col < |m[r]|
    requires best == -1 ==> bestAbs == 0.0 && forall r :: from <= r < k ==> m[r][col] == 0.0
    requires best != -1 ==> from <= best < k && bestAbs == Abs(m[best][col]) && 0.0 < bestAbs
    requires forall r :: from <= r < k ==> Abs(m[r][col]) <= bestAbs
    ensures var p := PivotScan(m, col, k, best, bestAbs);
      && (p == -1 <==> forall r :: from <= r < |m| ==> m[r][col] == 0.0)
      && (p != -1 ==> from <= p < |m| && m[p][col] != 0.0
                      && forall r :: from <= r < |m| ==> Abs(m[r][col]) <= Abs(m[p][col]))
    decreases |m| - k
  {
    if k < |m| {
      if bestAbs < Abs(m[k][col]) {
        PivotScanSpec(m, col, from, k + 1, k, Abs(m[k][col]));
      } else {
        PivotScanSpec(m, col, from, k + 1, best, bestAbs);
      }
    }
  }

  /**
   * The pivot row for column `col` at or below row `from`: a row whose entry
   * there has the largest absolute value, or -1 when every candidate is zero.
   */
  function MainItem(m: Mat, col: nat, from: nat): (p: int)
    requires from <= |m| && forall r :: 0 <= r < |m| ==> col < |m[r]|
    ensures p == -1 <==> forall r :: from <= r < |m| ==> m[r][col] == 0.0
    ensures p != -1 ==> from <= p < |m| && m[p][col] != 0.0
    ensures p != -1 ==> forall r :: from <= r < |m| ==> Abs(m[r][col]) <= Abs(m[p][col])
  {
    PivotScanSpec(m, col, from, from, -1, 0.0);
    PivotScan(m, col, from, -1, 0.0)
  }

  /** The cells of a two-dimensional array, row by row. */
  ghost function Grid(a: array2<real>): (m: Mat)
    reads a
    ensures IsMatrix(m, a.Length0, a.Length1)
  {
    seq(a.Length0, i requires 0 <= i < a.Length0 reads a =>
      seq(a.Length1, j requires 0 <= j < a.Length1 reads a => a[i, j]))
  }

  class Matrix {
    const data: array2<real>
    /** The cells, row by row. */
    ghost var cells: Mat

    /** `cells` is the value held in `data`. */
    ghost predicate Valid()
      reads this, data
    {
      && IsMatrix(cells, data.Length0, data.Length1)
      && forall i, j :: 0 <= i < data.Length0 && 0 <= j < data.Length1 ==> cells[i][j] == data[i, j]
    }

    function RowsCount(): nat {
      data.Length0
    }

    function ColumnsCount(): nat {
      data.Length1
    }

    /** A zero-filled matrix of the given dimensions. */
    constructor (rows: nat, cols: nat)
      ensures Valid() && RowsCount() == rows && ColumnsCount() == cols
      ensures cells == ZeroMatrix(rows, cols)
      ensures fresh(data)
    {
      data := new real[rows, cols]((_, _) => 0.0);
      cells := ZeroMatrix(rows, cols);
    }

    /** A deep copy of `other`: same cells, a fresh grid. */
    constructor Copy(other: Matrix)
      requires other.Valid()
      ensures Valid() && RowsCount() == other.RowsCount() && ColumnsCount() == other.ColumnsCount()
      ensures cells == other.cells
      ensures fresh(data)
    {
      data := new real[other.data.Length0, other.data.Length1];
      new;
      CopyFrom(other.data);
      assert forall i | 0 <= i < data.Length0 :: other.cells[i] == Grid(other.data)[i];
    }

    /** A matrix holding a copy of the cells of a literal two-dimensional array. */
    constructor FromArray(a: array2<real>)
      ensures Valid() && RowsCount() == a.Length0 && ColumnsCount() == a.Length1
      ensures cells == Grid(a)
      ensures fresh(data)
    {
      data := new real[a.Length0, a.Length1];
      new;
      CopyFrom(a);
    }

    method CopyFrom(a: array2<real>)
      requires a != data && a.Length0 == data.Length0 && a.Length1 == data.Length1
      modifies this, data
      ensures Valid() && cells == Grid(a)
    {
      for i := 0 to data.Length0
        invariant forall r, c :: 0 <= r < i && 0 <= c < data.Length1 ==> data[r, c] == a[r, c]
      {
        for j := 0 to data.Length1
          invariant forall r, c :: 0 <= r < i && 0 <= c < data.Length1 ==> data[r, c] == a[r, c]
          invariant forall c :: 0 <= c < j ==> data[i, c] == a[i, c]
        {
          data[i, j] := a[i, j];
        }
      }
      cells := Grid(a);
    }

    method SetZeroes()
      requires Valid()
      modifies this, data
      ensures Valid() && cells == ZeroMatrix(RowsCount(), ColumnsCount())
    {
      for i := 0 to data.Length0
        invariant forall r, c :: 0 <= r < i && 0 <= c < data.Length1 ==> data[r, c] == 0.0
      {
        for j := 0 to data.Length1
          invariant forall r, c :: 0 <= r < i && 0 <= c < data.Length1 ==> data[r, c] == 0.0
          invariant forall c :: 0 <= c < j ==> data[i, c] == 0.0
        {
          data[i, j] := 0.0;
        }
      }
      cells := ZeroMatrix(data.Length0, data.Length1);
    }

    function GetValue(i: nat, j: nat): real
      requires i < RowsCount() && j < ColumnsCount()
      reads data
    {
      data[i, j]
    }

    method SetValue(i: nat, j: nat, v: real)
      requires Valid() && i < RowsCount() && j < ColumnsCount()
      modifies this, data
      ensures Valid() && cells == SetCell(old(cells), i, j, v)
    {
      data[i, j] := v;
      cells := SetCell(cells, i, j, v);
    }

    /** The zero test on a cell (exact: `real` has no rounding to tolerate). */
    predicate CheckZero(i: nat, j: nat)
      requires i < RowsCount() && j < ColumnsCount()
      reads data
    {
      data[i, j] == 0.0
    }

    /** The cell queries read the cell that `cells` holds. */
    lemma CellQueries(i: nat, j: nat)
      requires Valid() && i < RowsCount() && j < ColumnsCount()
      ensures GetValue(i, j) == cells[i][j]
      ensures CheckZero(i, j) <==> cells[i][j] == 0.0
    {
    }

    method SwapRows(i: nat, j: nat)
      requires Valid() && i < RowsCount() && j < RowsCount()
      modifies this, data
      ensures Valid() && cells == Algebra.SwapRows(old(cells), i, j)
    {
      ghost var m := Algebra.SwapRows(cells, i, j);
      for c := 0 to data.Length1
        invariant forall r, c' :: 0 <= r < data.Length0 && 0 <= c' < data.Length1 ==>
          data[r, c'] == if c' < c then m[r][c'] else cells[r][c']
        modifies data
      {
        data[i, c], data[j, c] := data[j, c], data[i, c];
      }
      cells := m;
    }

    method MultiplyRow(i: nat, k: real)
      requires Valid() && i < RowsCount()
      modifies this, data
      ensures Valid() && cells == Algebra.MultiplyRow(old(cells), i, k)
    {
      ghost var m := Algebra.MultiplyRow(cells, i, k);
      for c := 0 to data.Length1
        invariant forall r, c' :: 0 <= r < data.Length0 && 0 <= c' < data.Length1 ==>
          data[r, c'] == if c' < c then m[r][c'] else cells[r][c']
        modifies data
      {
        data[i, c] := data[i, c] * k;
      }
      cells := m;
    }

    method SumRows(s: nat, t: nat)
      requires Valid() && s < RowsCount() && t < RowsCount()
      modifies this, data
      ensures Valid() && cells == Algebra.SumRows(old(cells), s, t)
    {
      ghost var m := Algebra.SumRows(cells, s, t);
      for c := 0 to data.Length1
        invariant forall r, c' :: 0 <= r < data.Length0 && 0 <= c' < data.Length1 ==>
          data[r, c'] == if c' < c then m[r][c'] else cells[r][c']
        modifies data
      {
        data[s, c] := data[s, c] + data[t, c];
      }
      cells := m;
    }

    method MultiplyAndSumRows(s: nat, t: nat, k: real)
      requires Valid() && s < RowsCount() && t < RowsCount()
      modifies this, data
      ensures Valid() && cells == Algebra.MultiplyAndSumRows(old(cells), s, t, k)
    {
      ghost var m := Algebra.MultiplyAndSumRows(cells, s, t, k);
      for c := 0 to data.Length1
        invariant forall r, c' :: 0 <= r < data.Length0 && 0 <= c' < data.Length1 ==>
          data[r, c'] == if c' < c then m[r][c'] else cells[r][c']
        modifies data
      {
        data[s, c] := data[s, c] + data[t, c] * k;
      }
      cells := m;
    }

    /** The pivot query of partial pivoting, scanning rows `from` and below. */
    method SelectMainItem(col: nat, from: nat) returns (p: int)
      requires Valid() && col < ColumnsCount() && from <= RowsCount()
      ensures p == MainItem(cells, col, from)
    {
      p := -1;
      var max := 0.0;
      for k := from to data.Length0
        invariant PivotScan(cells, col, k, p, max) == PivotScan(cells, col, from, -1, 0.0)
      {
        if max < Abs(data[k, col]) {
          p, max := k, Abs(data[k, col]);
        }
      }
    }
  }
}
