/**
 * Values of the dense linear-algebra engine: vectors, matrices as rows of
 * cells, the row transformations a matrix offers, and the finite sums the
 * solvers accumulate. Arithmetic is exact (`real`); see README for what that
 * leaves out of the floating-point original.
 */
module Algebra {

  type Vector = seq<real>

  /** A matrix as its sequence of rows. */
  type Mat = seq<seq<real>>

  predicate IsMatrix(m: Mat, rows: nat, cols: nat) {
    |m| == rows && forall i :: 0 <= i < |m| ==> |m[i]| == cols
  }

  function Abs(x: real): real {
    if x < 0.0 then -x else x
  }

  function Zeros(n: nat): Vector {
    seq(n, _ => 0.0)
  }

  function ZeroMatrix(rows: nat, cols: nat): Mat {
    seq(rows, _ => Zeros(cols))
  }

  /** The i-th unit vector of length n. */
  function Unit(n: nat, i: nat): Vector
    requires i < n
  {
    Zeros(n)[i := 1.0]
  }

  /** Column `j` of `m`, read top to bottom. */
  function Column(m: Mat, j: nat): Vector
    requires forall i :: 0 <= i < |m| ==> j < |m[i]|
  {
    seq(|m|, i requires 0 <= i < |m| => m[i][j])
  }

  function Swap<T>(s: seq<T>, i: nat, j: nat): seq<T>
    requires i < |s| && j < |s|
  {
    s[i := s[j]][j := s[i]]
  }

  function Scale(v: Vector, k: real): Vector {
    seq(|v|, j requires 0 <= j < |v| => v[j] * k)
  }

  function Add(u: Vector, v: Vector): Vector
    requires |u| == |v|
  {
    seq(|u|, j requires 0 <= j < |u| => u[j] + v[j])
  }

  function AddScaled(u: Vector, v: Vector, k: real): Vector
    requires |u| == |v|
  {
    seq(|u|, j requires 0 <= j < |u| => u[j] + v[j] * k)
  }

  function Sub(u: Vector, v: Vector): Vector
    requires |u| == |v|
  {
    seq(|u|, j requires 0 <= j < |u| => u[j] - v[j])
  }

  // The row transformations of a matrix, on values.

  function SwapRows(m: Mat, i: nat, j: nat): Mat
    requires i < |m| && j < |m|
  {
    Swap(m, i, j)
  }

  function MultiplyRow(m: Mat, i: nat, k: real): Mat
    requires i < |m|
  {
    m[i := Scale(m[i], k)]
  }

  function SumRows(m: Mat, s: nat, t: nat): Mat
    requires s < |m| && t < |m| && |m[s]| == |m[t]|
  {
    m[s := Add(m[s], m[t])]
  }

  function MultiplyAndSumRows(m: Mat, s: nat, t: nat, k: real): Mat
    requires s < |m| && t < |m| && |m[s]| == |m[t]|
  {
    m[s := AddScaled(m[s], m[t], k)]
  }

  function SetCell(m: Mat, i: nat, j: nat, v: real): Mat
    requires i < |m| && j < |m[i]|
  {
    m[i := m[i][j := v]]
  }

  /** The sum of u[j] * x[j] for lo <= j < hi, accumulated from the top index down. */
  function SumRange(u: Vector, x: Vector, lo: nat, hi: nat): real
    requires lo <= hi <= |u| && hi <= |x|
    decreases hi - lo
  {
    if lo == hi then 0.0 else u[lo] * x[lo] + SumRange(u, x, lo + 1, hi)
  }

  /** The product of a row with a vector, over the vector's length. */
  function Dot(u: Vector, x: Vector): real
    requires |x| <= |u|
  {
    SumRange(u, x, 0, |x|)
  }

  /** The largest absolute value of the entries, or 0 for the empty vector. */
  function MaxNorm(v: Vector): (r: real)
    ensures 0.0 <= r
    decreases |v|
  {
    if |v| == 0 then 0.0
    else
      var m := MaxNorm(v[..|v| - 1]);
      if m < Abs(v[|v| - 1]) then Abs(v[|v| - 1]) else m
  }

  lemma {:induction false} MaxNormBounds(v: Vector)
    ensures 0.0 <= MaxNorm(v)
    ensures forall i :: 0 <= i < |v| ==> Abs(v[i]) <= MaxNorm(v)
    ensures MaxNorm(v) == 0.0 || exists i :: 0 <= i < |v| && Abs(v[i]) == MaxNorm(v)
  {
    if |v| > 0 {
      var w := v[..|v| - 1];
      MaxNormBounds(w);
      forall i | 0 <= i < |v| - 1 ensures Abs(v[i]) <= MaxNorm(v) {
        assert v[i] == w[i];
      }
      if MaxNorm(w) != 0.0 && Abs(v[|v| - 1]) <= MaxNorm(w) {
        var i :| 0 <= i < |w| && Abs(w[i]) == MaxNorm(w);
        assert v[i] == w[i];
      }
    }
  }

  /** A vector whose max-norm is not positive is zero everywhere. */
  lemma MaxNormZero(v: Vector)
    requires MaxNorm(v) <= 0.0
    ensures forall i :: 0 <= i < |v| ==> v[i] == 0.0
  {
    MaxNormBounds(v);
  }

  // Facts about finite sums.

  lemma {:induction false} SumRangeSplit(u: Vector, x: Vector, lo: nat, mid: nat, hi: nat)
    requires lo <= mid <= hi <= |u| && hi <= |x|
    ensures SumRange(u, x, lo, hi) == SumRange(u, x, lo, mid) + SumRange(u, x, mid, hi)
    decreases mid - lo
  {
    if lo < mid {
      SumRangeSplit(u, x, lo + 1, mid, hi);
    }
  }

  lemma SumRangeLast(u: Vector, x: Vector, lo: nat, hi: nat)
    requires lo <= hi < |u| && hi < |x|
    ensures SumRange(u, x, lo, hi + 1) == SumRange(u, x, lo, hi) + u[hi] * x[hi]
  {
    SumRangeSplit(u, x, lo, hi, hi + 1);
  }

  /** A sum reads only the entries of its range. */
  lemma {:induction false} SumRangeAgree(u: Vector, x: Vector, w: Vector, y: Vector, lo: nat, hi: nat)
    requires lo <= hi <= |u| && hi <= |x| && hi <= |w| && hi <= |y|
    requires forall j :: lo <= j < hi ==> u[j] == w[j] && x[j] == y[j]
    ensures SumRange(u, x, lo, hi) == SumRange(w, y, lo, hi)
    decreases hi - lo
  {
    if lo < hi {
      SumRangeAgree(u, x, w, y, lo + 1, hi);
    }
  }

  /** A sum whose every term has a zero factor is zero. */
  lemma {:induction false} SumRangeZero(u: Vector, x: Vector, lo: nat, hi: nat)
    requires lo <= hi <= |u| && hi <= |x|
    requires forall j :: lo <= j < hi ==> u[j] == 0.0 || x[j] == 0.0
    ensures SumRange(u, x, lo, hi) == 0.0
    decreases hi - lo
  {
    if lo < hi {
      SumRangeZero(u, x, lo + 1, hi);
    }
  }

  lemma {:induction false} SumRangeScale(u: Vector, k: real, x: Vector, lo: nat, hi: nat)
    requires lo <= hi <= |u| && hi <= |x|
    ensures SumRange(Scale(u, k), x, lo, hi) == SumRange(u, x, lo, hi) * k
    decreases hi - lo
  {
    if lo < hi {
      SumRangeScale(u, k, x, lo + 1, hi);
      assert Scale(u, k)[lo] * x[lo] == u[lo] * x[lo] * k;
    }
  }

  lemma {:induction false} SumRangeAdd(u: Vector, v: Vector, x: Vector, lo: nat, hi: nat)
    requires |u| == |v| && lo <= hi <= |u| && hi <= |x|
    ensures SumRange(Add(u, v), x, lo, hi) == SumRange(u, x, lo, hi) + SumRange(v, x, lo, hi)
    decreases hi - lo
  {
    if lo < hi {
      SumRangeAdd(u, v, x, lo + 1, hi);
    }
  }

  lemma {:induction false} SumRangeAddScaled(u: Vector, v: Vector, k: real, x: Vector, lo: nat, hi: nat)
    requires |u| == |v| && lo <= hi <= |u| && hi <= |x|
    ensures SumRange(AddScaled(u, v, k), x, lo, hi) == SumRange(u, x, lo, hi) + SumRange(v, x, lo, hi) * k
    decreases hi - lo
  {
    if lo < hi {
      SumRangeAddScaled(u, v, k, x, lo + 1, hi);
      assert AddScaled(u, v, k)[lo] * x[lo] == u[lo] * x[lo] + v[lo] * x[lo] * k;
    }
  }

  /** Zeroing entry i of a row removes exactly the i-th term from the product. */
  lemma DotMasked(u: Vector, x: Vector, i: nat)
    requires i < |x| <= |u|
    ensures Dot(u[i := 0.0], x) == Dot(u, x) - u[i] * x[i]
  {
    var w := u[i := 0.0];
    SumRangeSplit(u, x, 0, i, |x|);
    SumRangeSplit(w, x, 0, i, |x|);
    SumRangeAgree(u, x, w, x, 0, i);
    SumRangeAgree(u, x, w, x, i + 1, |x|);
  }
}
