/**
 * The Thomas sweep for tridiagonal systems, on values: the forward
 * coefficients p and q, the backward recurrence x[i] = p[i] * x[i+1] + q[i],
 * and the proof that a vector obeying the recurrence satisfies every row of
 * the system as read on its three diagonals, and conversely. So a
 * tridiagonal matrix the sweep can handle is regular, and elimination on it
 * completes with the same answer.
 *
 * The sweep reads only m[i][i-1], m[i][i] and m[i][i+1]. Its denominators
 * must be non-zero; P and Q yield 0 at a zero denominator, a case that every
 * statement below excludes through `Sweepable`.
 */
module Tridiagonal {
  import opened Algebra
  import opened Systems
  import opened Elimination

  /** A system the sweep can read: at least two rows. */
  predicate Banded(s: System) {
    IsSystem(s) && 2 <= |s.m|
  }

  /** The denominator of step k (1 <= k): -m[k][k] - m[k][k-1] * p[k-1]. */
  function Denom(s: System, k: nat): real
    requires Banded(s) && 1 <= k < |s.m|
    decreases k, 0
  {
    -1.0 * s.m[k][k] - s.m[k][k - 1] * P(s, k - 1)
  }

  /** The forward coefficient p[k], for k < n - 1. */
  function P(s: System, k: nat): real
    requires Banded(s) && k < |s.m| - 1
    decreases k, 1
  {
    if k == 0 then
      (if s.m[0][0] == 0.0 then 0.0 else s.m[0][1] / s.m[0][0] / -1.0)
    else
      var d := Denom(s, k);
      if d == 0.0 then 0.0 else s.m[k][k + 1] / d
  }

  /** The forward coefficient q[k], for k < n. */
  function Q(s: System, k: nat): real
    requires Banded(s) && k < |s.m|
  {
    if k == 0 then
      (if s.m[0][0] == 0.0 then 0.0 else s.c[0] / s.m[0][0])
    else
      var d := Denom(s, k);
      if d == 0.0 then 0.0 else (s.m[k][k - 1] * Q(s, k - 1) - s.c[k]) / d
  }

  /** No denominator of the sweep is zero. */
  predicate Sweepable(s: System)
    requires Banded(s)
  {
    s.m[0][0] != 0.0 && forall k :: 1 <= k < |s.m| ==> Denom(s, k) != 0.0
  }

  /** The forward coefficients p[0..n-2] of the sweep. */
  function Ps(s: System): (ps: seq<real>)
    requires Banded(s)
    ensures |ps| == |s.m| - 1
  {
    seq(|s.m| - 1, k requires 0 <= k < |s.m| - 1 => P(s, k))
  }

  /** The forward coefficients q[0..n-1] of the sweep. */
  function Qs(s: System): (qs: seq<real>)
    requires Banded(s)
    ensures |qs| == |s.m|
  {
    seq(|s.m|, k requires 0 <= k < |s.m| => Q(s, k))
  }

  /** The first i forward coefficients p are those of the sweep. */
  predicate PsAgree(s: System, ps: seq<real>, i: nat)
    requires Banded(s) && i <= |ps| <= |s.m| - 1
  {
    forall k :: 0 <= k < i ==> ps[k] == P(s, k)
  }

  /** The first i forward coefficients q are those of the sweep. */
  predicate QsAgree(s: System, qs: seq<real>, i: nat)
    requires Banded(s) && i <= |qs| <= |s.m|
  {
    forall k :: 0 <= k < i ==> qs[k] == Q(s, k)
  }

  /** x obeys the backward recurrence of the sweep. */
  predicate Recurrence(s: System, x: Vector)
    requires Banded(s) && |x| == |s.m|
  {
    BackwardRecurrence(Ps(s), Qs(s), x)
  }

  /** x[n-1] = qs[n-1] and x[i] = ps[i] * x[i+1] + qs[i] below it. */
  predicate BackwardRecurrence(ps: seq<real>, qs: seq<real>, x: Vector)
    requires 1 <= |x| && |ps| == |x| - 1 && |qs| == |x|
  {
    && x[|x| - 1] == qs[|x| - 1]
    && forall i :: 0 <= i < |x| - 1 ==> x[i] == ps[i] * x[i + 1] + qs[i]
  }

  /** Two systems of one size that agree on the three diagonals and on the right-hand side. */
  predicate SameBand(s1: System, s2: System)
    requires Banded(s1) && Banded(s2)
  {
    && |s1.m| == |s2.m| && s1.c == s2.c
    && forall i, j :: 0 <= i < |s1.m| && 0 <= j < |s1.m| && i <= j + 1 && j <= i + 1 ==> s1.m[i][j] == s2.m[i][j]
  }

  /** The first coefficients of the sweep agree on two such systems. */
  lemma BandFirst(s1: System, s2: System)
    requires Banded(s1) && Banded(s2) && SameBand(s1, s2)
    ensures Q(s1, 0) == Q(s2, 0) && P(s1, 0) == P(s2, 0)
  {
    var b, c, d := s1.m[0][0], s1.m[0][1], s1.c[0];
    assert s2.m[0][0] == b && s2.m[0][1] == c && s2.c[0] == d;
  }

  /** Step k of the sweep agrees on two such systems once step k - 1 does. */
  lemma BandNext(s1: System, s2: System, k: nat)
    requires Banded(s1) && Banded(s2) && SameBand(s1, s2) && 1 <= k < |s1.m|
    requires P(s1, k - 1) == P(s2, k - 1) && Q(s1, k - 1) == Q(s2, k - 1)
    ensures Denom(s1, k) == Denom(s2, k) && Q(s1, k) == Q(s2, k)
    ensures k < |s1.m| - 1 ==> P(s1, k) == P(s2, k)
  {
    var a, b, d := s1.m[k][k - 1], s1.m[k][k], s1.c[k];
    assert s2.m[k][k - 1] == a && s2.m[k][k] == b && s2.c[k] == d;
    if k < |s1.m| - 1 {
      var c := s1.m[k][k + 1];
      assert s2.m[k][k + 1] == c;
    }
  }

  /** Coefficient k of the sweep, and its denominator, agree on two such systems. */
  lemma {:induction false} BandCoefficients(s1: System, s2: System, k: nat)
    requires Banded(s1) && Banded(s2) && SameBand(s1, s2) && k < |s1.m|
    ensures Q(s1, k) == Q(s2, k)
    ensures k < |s1.m| - 1 ==> P(s1, k) == P(s2, k)
    ensures 1 <= k ==> Denom(s1, k) == Denom(s2, k)
  {
    if k == 0 {
      BandFirst(s1, s2);
    } else {
      BandCoefficients(s1, s2, k - 1);
      BandNext(s1, s2, k);
    }
  }

  /** The coefficient sequences of the sweep agree on two such systems. */
  lemma BandSequences(s1: System, s2: System)
    requires Banded(s1) && Banded(s2) && SameBand(s1, s2)
    ensures Ps(s1) == Ps(s2) && Qs(s1) == Qs(s2)
  {
    forall k | 0 <= k < |s1.m| - 1 ensures Ps(s1)[k] == Ps(s2)[k] {
      BandCoefficients(s1, s2, k);
    }
    forall k | 0 <= k < |s1.m| ensures Qs(s1)[k] == Qs(s2)[k] {
      BandCoefficients(s1, s2, k);
    }
  }

  /** The sweep applies to one of two such systems exactly when it applies to the other. */
  lemma BandSweepable(s1: System, s2: System)
    requires Banded(s1) && Banded(s2) && SameBand(s1, s2)
    ensures Sweepable(s1) <==> Sweepable(s2)
  {
    forall k | 1 <= k < |s1.m| ensures Denom(s1, k) == Denom(s2, k) {
      BandCoefficients(s1, s2, k);
    }
    assert s1.m[0][0] == s2.m[0][0];
  }

  /**
   * The sweep reads only the three diagonals and the right-hand side: two
   * systems that agree there have the same coefficients, the same
   * applicability and the same answers.
   */
  lemma SweepReadsBand(s1: System, s2: System)
    requires Banded(s1) && Banded(s2) && SameBand(s1, s2)
    ensures Ps(s1) == Ps(s2) && Qs(s1) == Qs(s2)
    ensures Sweepable(s1) <==> Sweepable(s2)
    ensures forall x :: |x| == |s1.m| ==> (Recurrence(s1, x) <==> Recurrence(s2, x))
  {
    BandSequences(s1, s2);
    BandSweepable(s1, s2);
    forall x | |x| == |s1.m| ensures Recurrence(s1, x) <==> Recurrence(s2, x) {
      RecurrenceOfSequences(s1, s2, x);
    }
  }

  /** The recurrence depends on a system only through its coefficient sequences. */
  lemma RecurrenceOfSequences(s1: System, s2: System, x: Vector)
    requires Banded(s1) && Banded(s2) && |s1.m| == |s2.m| == |x|
    requires Ps(s1) == Ps(s2) && Qs(s1) == Qs(s2)
    ensures Recurrence(s1, x) <==> Recurrence(s2, x)
  {
    assert Recurrence(s1, x) == BackwardRecurrence(Ps(s1), Qs(s1), x);
  }

  /** Row i of the system as the sweep sees it: only the three diagonals. */
  function TriRow(s: System, x: Vector, i: nat): real
    requires Banded(s) && |x| == |s.m| && i < |s.m|
  {
    (if 0 < i then s.m[i][i - 1] * x[i - 1] else 0.0)
    + s.m[i][i] * x[i]
    + (if i < |s.m| - 1 then s.m[i][i + 1] * x[i + 1] else 0.0)
  }

  predicate TriSolves(s: System, x: Vector)
    requires Banded(s) && |x| == |s.m|
  {
    forall i :: 0 <= i < |s.m| ==> TriRow(s, x, i) == s.c[i]
  }

  /** Every entry outside the three diagonals is zero. */
  predicate IsTridiagonal(s: System)
    requires IsSystem(s)
  {
    forall i, j :: 0 <= i < |s.m| && 0 <= j < |s.m| && (j + 1 < i || i + 1 < j) ==> s.m[i][j] == 0.0
  }

  /** One interior row: a_i x[i-1] + b_i x[i] + c_i x[i+1] = d_i. */
  lemma InteriorRow(a: real, b: real, c: real, d: real, pPrev: real, qPrev: real,
                    den: real, p: real, q: real, xPrev: real, x: real, xNext: real)
    requires den == -1.0 * b - a * pPrev && den != 0.0
    requires p == c / den && q == (a * qPrev - d) / den
    requires xPrev == pPrev * x + qPrev
    requires x == p * xNext + q
    ensures a * xPrev + b * x + c * xNext == d
  {
    assert den * p == c;
    assert den * q == a * qPrev - d;
    calc {
      a * xPrev + b * x;
      a * pPrev * x + a * qPrev + b * x;
      -den * x + a * qPrev;
      -den * (p * xNext + q) + a * qPrev;
      -(den * p) * xNext - den * q + a * qPrev;
      -c * xNext + d;
    }
  }

  /** The last row: a x[n-2] + b x[n-1] = d. */
  lemma LastRow(a: real, b: real, d: real, pPrev: real, qPrev: real, den: real, q: real, xPrev: real, x: real)
    requires den == -1.0 * b - a * pPrev && den != 0.0
    requires q == (a * qPrev - d) / den
    requires xPrev == pPrev * x + qPrev
    requires x == q
    ensures a * xPrev + b * x == d
  {
    assert den * q == a * qPrev - d;
  }

  /** The first row: b x[0] + c x[1] = d. */
  lemma FirstRow(b: real, c: real, d: real, p: real, q: real, x: real, xNext: real)
    requires b != 0.0
    requires p == c / b / -1.0 && q == d / b
    requires x == p * xNext + q
    ensures b * x + c * xNext == d
  {
    assert b * p == -c;
    assert b * q == d;
  }

  lemma PStep(s: System, k: nat)
    requires Banded(s) && 1 <= k < |s.m| - 1 && Denom(s, k) != 0.0
    ensures P(s, k) == s.m[k][k + 1] / Denom(s, k)
  {
  }

  lemma QStep(s: System, k: nat)
    requires Banded(s) && 1 <= k < |s.m| && Denom(s, k) != 0.0
    ensures Q(s, k) == (s.m[k][k - 1] * Q(s, k - 1) - s.c[k]) / Denom(s, k)
  {
  }

  lemma SweepInterior(s: System, x: Vector, i: nat)
    requires Banded(s) && |x| == |s.m| && 1 <= i < |s.m| - 1 && Denom(s, i) != 0.0
    requires x[i - 1] == P(s, i - 1) * x[i] + Q(s, i - 1)
    requires x[i] == P(s, i) * x[i + 1] + Q(s, i)
    ensures TriRow(s, x, i) == s.c[i]
  {
    PStep(s, i);
    QStep(s, i);
    InteriorRow(s.m[i][i - 1], s.m[i][i], s.m[i][i + 1], s.c[i], P(s, i - 1), Q(s, i - 1),
                Denom(s, i), P(s, i), Q(s, i), x[i - 1], x[i], x[i + 1]);
  }

  lemma SweepLast(s: System, x: Vector, i: nat)
    requires Banded(s) && |x| == |s.m| && i == |s.m| - 1 && Denom(s, i) != 0.0
    requires x[i - 1] == P(s, i - 1) * x[i] + Q(s, i - 1)
    requires x[i] == Q(s, i)
    ensures TriRow(s, x, i) == s.c[i]
  {
    QStep(s, i);
    assert TriRow(s, x, i) == s.m[i][i - 1] * x[i - 1] + s.m[i][i] * x[i];
    LastRow(s.m[i][i - 1], s.m[i][i], s.c[i], P(s, i - 1), Q(s, i - 1), Denom(s, i), Q(s, i), x[i - 1], x[i]);
  }

  /** Row 0 is met by a vector obeying the recurrence. */
  lemma SweepFirst(s: System, x: Vector)
    requires Banded(s) && Sweepable(s) && |x| == |s.m| && Recurrence(s, x)
    ensures TriRow(s, x, 0) == s.c[0]
  {
    assert x[0] == Ps(s)[0] * x[1] + Qs(s)[0];
    FirstRow(s.m[0][0], s.m[0][1], s.c[0], P(s, 0), Q(s, 0), x[0], x[1]);
  }

  /** An interior row is met by a vector obeying the recurrence. */
  lemma SweepMiddle(s: System, x: Vector, i: nat)
    requires Banded(s) && Sweepable(s) && |x| == |s.m| && Recurrence(s, x) && 1 <= i < |s.m| - 1
    ensures TriRow(s, x, i) == s.c[i]
  {
    assert x[i - 1] == Ps(s)[i - 1] * x[i] + Qs(s)[i - 1];
    assert x[i] == Ps(s)[i] * x[i + 1] + Qs(s)[i];
    SweepInterior(s, x, i);
  }

  /** The last row is met by a vector obeying the recurrence. */
  lemma SweepFinal(s: System, x: Vector)
    requires Banded(s) && Sweepable(s) && |x| == |s.m| && Recurrence(s, x)
    ensures TriRow(s, x, |s.m| - 1) == s.c[|s.m| - 1]
  {
    var i := |s.m| - 1;
    assert x[i - 1] == Ps(s)[i - 1] * x[i] + Qs(s)[i - 1];
    SweepLast(s, x, i);
  }

  /** Row i is met by a vector obeying the recurrence. */
  lemma SweepRow(s: System, x: Vector, i: nat)
    requires Banded(s) && Sweepable(s) && |x| == |s.m| && Recurrence(s, x) && i < |s.m|
    ensures TriRow(s, x, i) == s.c[i]
  {
    if i == 0 {
      SweepFirst(s, x);
    } else if i < |s.m| - 1 {
      SweepMiddle(s, x, i);
    } else {
      SweepFinal(s, x);
    }
  }

  /** A vector obeying the backward recurrence satisfies every row on its three diagonals. */
  lemma SweepSolves(s: System, x: Vector)
    requires Banded(s) && Sweepable(s) && |x| == |s.m| && Recurrence(s, x)
    ensures TriSolves(s, x)
  {
    forall i | 0 <= i < |s.m| ensures TriRow(s, x, i) == s.c[i] {
      SweepRow(s, x, i);
    }
  }

  /** A row that is zero outside [lo, hi) has its whole product inside the window. */
  lemma Window(row: Vector, x: Vector, lo: nat, hi: nat)
    requires lo <= hi <= |x| <= |row|
    requires forall j :: 0 <= j < |x| && (j < lo || hi <= j) ==> row[j] == 0.0
    ensures Dot(row, x) == SumRange(row, x, lo, hi)
  {
    SumRangeSplit(row, x, 0, lo, |x|);
    SumRangeSplit(row, x, lo, hi, |x|);
    SumRangeZero(row, x, 0, lo);
    SumRangeZero(row, x, hi, |x|);
  }

  /** Row 0 of a tridiagonal matrix: its product is m[0][0] x[0] + m[0][1] x[1]. */
  lemma TriRowIsDotFirst(s: System, x: Vector)
    requires Banded(s) && IsTridiagonal(s) && |x| == |s.m|
    ensures Dot(s.m[0], x) == TriRow(s, x, 0)
  {
    var row := s.m[0];
    Window(row, x, 0, 2);
    assert SumRange(row, x, 0, 2) == row[0] * x[0] + (row[1] * x[1] + SumRange(row, x, 2, 2));
  }

  /** The last row of a tridiagonal matrix: its product is m[n-1][n-2] x[n-2] + m[n-1][n-1] x[n-1]. */
  lemma TriRowIsDotLast(s: System, x: Vector)
    requires Banded(s) && IsTridiagonal(s) && |x| == |s.m|
    ensures Dot(s.m[|s.m| - 1], x) == TriRow(s, x, |s.m| - 1)
  {
    var n := |s.m|;
    var i, row := n - 1, s.m[n - 1];
    Window(row, x, i - 1, n);
    assert SumRange(row, x, i - 1, n) == row[i - 1] * x[i - 1] + (row[i] * x[i] + SumRange(row, x, n, n));
  }

  /** An interior row of a tridiagonal matrix: its product covers the three diagonals only. */
  lemma TriRowIsDotInner(s: System, x: Vector, i: nat)
    requires Banded(s) && IsTridiagonal(s) && |x| == |s.m| && 0 < i < |s.m| - 1
    ensures Dot(s.m[i], x) == TriRow(s, x, i)
  {
    var row := s.m[i];
    Window(row, x, i - 1, i + 2);
    assert SumRange(row, x, i + 1, i + 2) == row[i + 1] * x[i + 1] + SumRange(row, x, i + 2, i + 2);
    assert SumRange(row, x, i - 1, i + 2) == row[i - 1] * x[i - 1] + (row[i] * x[i] + SumRange(row, x, i + 1, i + 2));
  }

  /** On a tridiagonal matrix the three-diagonal row is the whole row product. */
  lemma TriRowIsDot(s: System, x: Vector, i: nat)
    requires Banded(s) && IsTridiagonal(s) && |x| == |s.m| && i < |s.m|
    ensures Dot(s.m[i], x) == TriRow(s, x, i)
  {
    if i == 0 {
      TriRowIsDotFirst(s, x);
    } else if i == |s.m| - 1 {
      TriRowIsDotLast(s, x);
    } else {
      TriRowIsDotInner(s, x, i);
    }
  }

  /** For a tridiagonal matrix, the sweep's answer solves the whole system. */
  lemma SweepSolvesTridiagonal(s: System, x: Vector)
    requires Banded(s) && Sweepable(s) && IsTridiagonal(s) && |x| == |s.m| && Recurrence(s, x)
    ensures Solves(s, x)
  {
    SweepSolves(s, x);
    forall i | 0 <= i < |s.m| ensures Dot(s.m[i], x) == s.c[i] {
      TriRowIsDot(s, x, i);
    }
  }

  /** Row 0 solved for x[0]: a solution of b x[0] + c x[1] = d obeys x[0] = p x[1] + q. */
  lemma FirstRowSolved(b: real, c: real, d: real, p: real, q: real, x: real, xNext: real)
    requires b != 0.0
    requires p == c / b / -1.0 && q == d / b
    requires b * x + c * xNext == d
    ensures x == p * xNext + q
  {
    assert b * p == -c;
    assert b * q == d;
    assert b * (x - (p * xNext + q)) == 0.0;
    ZeroFactor(b, x - (p * xNext + q));
  }

  /** An interior row with x[i-1] = pPrev x[i] + qPrev substituted, collected on x[i]. */
  lemma InteriorRowCollected(a: real, b: real, c: real, d: real, pPrev: real, qPrev: real,
                             den: real, xPrev: real, x: real, xNext: real)
    requires den == -1.0 * b - a * pPrev
    requires xPrev == pPrev * x + qPrev
    requires a * xPrev + b * x + c * xNext == d
    ensures den * x == c * xNext + (a * qPrev - d)
  {
  }

  /** Dividing den x = c xNext + e by a non-zero den gives x = p xNext + q. */
  lemma CancelDenominator(den: real, c: real, e: real, p: real, q: real, x: real, xNext: real)
    requires den != 0.0 && den * x == c * xNext + e
    requires den * p == c && den * q == e
    ensures x == p * xNext + q
  {
    assert den * (x - (p * xNext + q)) == 0.0;
    ZeroFactor(den, x - (p * xNext + q));
  }

  /** The last row with x[n-2] = pPrev x[n-1] + qPrev substituted, collected on x[n-1]. */
  lemma LastRowCollected(a: real, b: real, d: real, pPrev: real, qPrev: real, den: real, xPrev: real, x: real)
    requires den == -1.0 * b - a * pPrev
    requires xPrev == pPrev * x + qPrev
    requires a * xPrev + b * x == d
    ensures den * x == a * qPrev - d
  {
  }

  /** Two values with the same non-zero multiple are equal. */
  lemma CancelFactor(den: real, e: real, q: real, x: real)
    requires den != 0.0 && den * x == e && den * q == e
    ensures x == q
  {
    assert den * (x - q) == 0.0;
    ZeroFactor(den, x - q);
  }

  /** p[k] times its denominator is the super-diagonal entry. */
  lemma PTimesDenom(s: System, k: nat)
    requires Banded(s) && 1 <= k < |s.m| - 1 && Denom(s, k) != 0.0
    ensures Denom(s, k) * P(s, k) == s.m[k][k + 1]
  {
    PStep(s, k);
  }

  /** q[k] times its denominator is a_k q[k-1] - d_k. */
  lemma QTimesDenom(s: System, k: nat)
    requires Banded(s) && 1 <= k < |s.m| && Denom(s, k) != 0.0
    ensures Denom(s, k) * Q(s, k) == s.m[k][k - 1] * Q(s, k - 1) - s.c[k]
  {
    QStep(s, k);
  }

  /** Row i of the band, for an interior i. */
  lemma TriRowInterior(s: System, x: Vector, i: nat)
    requires Banded(s) && |x| == |s.m| && 1 <= i < |s.m| - 1
    ensures TriRow(s, x, i) == s.m[i][i - 1] * x[i - 1] + s.m[i][i] * x[i] + s.m[i][i + 1] * x[i + 1]
  {
  }

  /** The last row of the band. */
  lemma TriRowFinal(s: System, x: Vector, i: nat)
    requires Banded(s) && |x| == |s.m| && i == |s.m| - 1
    ensures TriRow(s, x, i) == s.m[i][i - 1] * x[i - 1] + s.m[i][i] * x[i]
  {
  }

  /** Row i collected on x[i], once x[i-1] obeys the recurrence. */
  lemma InteriorCollected(s: System, x: Vector, i: nat)
    requires Banded(s) && |x| == |s.m| && 1 <= i < |s.m| - 1
    requires x[i - 1] == P(s, i - 1) * x[i] + Q(s, i - 1)
    requires TriRow(s, x, i) == s.c[i]
    ensures Denom(s, i) * x[i] == s.m[i][i + 1] * x[i + 1] + (s.m[i][i - 1] * Q(s, i - 1) - s.c[i])
  {
    TriRowInterior(s, x, i);
    InteriorRowCollected(s.m[i][i - 1], s.m[i][i], s.m[i][i + 1], s.c[i], P(s, i - 1), Q(s, i - 1),
                         Denom(s, i), x[i - 1], x[i], x[i + 1]);
  }

  /** Dividing the collected row by its non-zero denominator. */
  lemma InteriorCancelled(s: System, x: Vector, i: nat)
    requires Banded(s) && |x| == |s.m| && 1 <= i < |s.m| - 1 && Denom(s, i) != 0.0
    requires Denom(s, i) * x[i] == s.m[i][i + 1] * x[i + 1] + (s.m[i][i - 1] * Q(s, i - 1) - s.c[i])
    ensures x[i] == P(s, i) * x[i + 1] + Q(s, i)
  {
    PTimesDenom(s, i);
    QTimesDenom(s, i);
    CancelDenominator(Denom(s, i), s.m[i][i + 1], s.m[i][i - 1] * Q(s, i - 1) - s.c[i], P(s, i), Q(s, i), x[i], x[i + 1]);
  }

  lemma SolutionInterior(s: System, x: Vector, i: nat)
    requires Banded(s) && |x| == |s.m| && 1 <= i < |s.m| - 1 && Denom(s, i) != 0.0
    requires x[i - 1] == P(s, i - 1) * x[i] + Q(s, i - 1)
    requires TriRow(s, x, i) == s.c[i]
    ensures x[i] == P(s, i) * x[i + 1] + Q(s, i)
  {
    InteriorCollected(s, x, i);
    InteriorCancelled(s, x, i);
  }

  /** The last row collected on x[n-1], once x[n-2] obeys the recurrence. */
  lemma FinalCollected(s: System, x: Vector, i: nat)
    requires Banded(s) && |x| == |s.m| && i == |s.m| - 1
    requires x[i - 1] == P(s, i - 1) * x[i] + Q(s, i - 1)
    requires TriRow(s, x, i) == s.c[i]
    ensures Denom(s, i) * x[i] == s.m[i][i - 1] * Q(s, i - 1) - s.c[i]
  {
    TriRowFinal(s, x, i);
    LastRowCollected(s.m[i][i - 1], s.m[i][i], s.c[i], P(s, i - 1), Q(s, i - 1), Denom(s, i), x[i - 1], x[i]);
  }

  lemma SolutionFinal(s: System, x: Vector, i: nat)
    requires Banded(s) && |x| == |s.m| && i == |s.m| - 1 && Denom(s, i) != 0.0
    requires x[i - 1] == P(s, i - 1) * x[i] + Q(s, i - 1)
    requires TriRow(s, x, i) == s.c[i]
    ensures x[i] == Q(s, i)
  {
    FinalCollected(s, x, i);
    QTimesDenom(s, i);
    CancelFactor(Denom(s, i), s.m[i][i - 1] * Q(s, i - 1) - s.c[i], Q(s, i), x[i]);
  }

  /** A vector meeting rows 0..k on the three diagonals obeys the recurrence at k. */
  lemma {:induction false} SolutionStep(s: System, x: Vector, k: nat)
    requires Banded(s) && Sweepable(s) && |x| == |s.m| && TriSolves(s, x) && k < |s.m| - 1
    ensures x[k] == P(s, k) * x[k + 1] + Q(s, k)
  {
    assert TriRow(s, x, k) == s.c[k];
    if k == 0 {
      FirstRowSolved(s.m[0][0], s.m[0][1], s.c[0], P(s, 0), Q(s, 0), x[0], x[1]);
    } else {
      SolutionStep(s, x, k - 1);
      SolutionInterior(s, x, k);
    }
  }

  /**
   * The converse of SweepSolves: every vector meeting all rows on the three
   * diagonals obeys the backward recurrence, so the sweep's answer is the
   * only one.
   */
  lemma SolutionObeysRecurrence(s: System, x: Vector)
    requires Banded(s) && Sweepable(s) && |x| == |s.m| && TriSolves(s, x)
    ensures Recurrence(s, x)
  {
    var n := |s.m|;
    forall k | 0 <= k < n - 1 ensures x[k] == Ps(s)[k] * x[k + 1] + Qs(s)[k] {
      SolutionStep(s, x, k);
    }
    SolutionLast(s, x);
  }

  /** A vector meeting every row on the three diagonals ends in q[n-1]. */
  lemma SolutionLast(s: System, x: Vector)
    requires Banded(s) && Sweepable(s) && |x| == |s.m| && TriSolves(s, x)
    ensures x[|s.m| - 1] == Qs(s)[|s.m| - 1]
  {
    var n := |s.m|;
    SolutionStep(s, x, n - 2);
    SolutionFinal(s, x, n - 1);
  }

  /** On the three diagonals, meeting every row and obeying the recurrence are the same. */
  lemma TriSolvesIffRecurrence(s: System, x: Vector)
    requires Banded(s) && Sweepable(s) && |x| == |s.m|
    ensures TriSolves(s, x) <==> Recurrence(s, x)
  {
    if TriSolves(s, x) {
      SolutionObeysRecurrence(s, x);
    }
    if Recurrence(s, x) {
      SweepSolves(s, x);
    }
  }

  /** Two vectors obeying one backward recurrence agree from position k up. */
  lemma {:induction false} RecurrenceUnique(ps: seq<real>, qs: seq<real>, x: Vector, y: Vector, k: nat)
    requires 1 <= |x| == |y| && |ps| == |x| - 1 && |qs| == |x| && k < |x|
    requires BackwardRecurrence(ps, qs, x) && BackwardRecurrence(ps, qs, y)
    ensures x[k] == y[k]
    decreases |x| - k
  {
    if k < |x| - 1 {
      RecurrenceUnique(ps, qs, x, y, k + 1);
    }
  }

  /** The p coefficients and the denominators do not read the right-hand side. */
  lemma {:induction false} PIgnoresColumn(s1: System, s2: System, k: nat)
    requires Banded(s1) && Banded(s2) && s1.m == s2.m && k < |s1.m| - 1
    ensures P(s1, k) == P(s2, k)
  {
    if 0 < k {
      PIgnoresColumn(s1, s2, k - 1);
      assert Denom(s1, k) == Denom(s2, k);
    }
  }

  /** With a zero right-hand side every q coefficient is zero. */
  lemma {:induction false} QHomogeneous(s: System, k: nat)
    requires Banded(s) && s.c == Zeros(|s.m|) && k < |s.m|
    ensures Q(s, k) == 0.0
  {
    if 0 < k {
      QHomogeneous(s, k - 1);
    }
  }

  /**
   * A tridiagonal matrix whose sweep denominators are all non-zero is
   * regular, so elimination on it never stops early: the sweep's
   * denominators are, up to sign, the pivots elimination would find.
   */
  lemma SweepableCompletes(s: System)
    requires Banded(s) && Sweepable(s) && IsTridiagonal(s)
    ensures Diagonalized(s).stop == |s.m|
  {
    var n := |s.m|;
    var h := System(s.m, Zeros(n));
    forall k | 1 <= k < n ensures Denom(h, k) == Denom(s, k) {
      PIgnoresColumn(s, h, k - 1);
    }
    assert Sweepable(h);
    forall k | 0 <= k < n ensures Qs(h)[k] == 0.0 {
      QHomogeneous(h, k);
    }
    assert Recurrence(h, Zeros(n));
    forall y | |y| == n && Solves(h, y) ensures y == Zeros(n) {
      forall i | 0 <= i < n ensures TriRow(h, y, i) == h.c[i] {
        TriRowIsDot(h, y, i);
      }
      SolutionObeysRecurrence(h, y);
      forall k | 0 <= k < n ensures y[k] == Zeros(n)[k] {
        RecurrenceUnique(Ps(h), Qs(h), y, Zeros(n), k);
      }
    }
    assert !Singular(s);
    SingularIffStopped(s);
  }

  /** On a tridiagonal matrix elimination completes, and the sweep and Gaussian elimination give the same answer. */
  lemma SweepAgreesWithGauss(s: System, x: Vector)
    requires Banded(s) && Sweepable(s) && IsTridiagonal(s) && |x| == |s.m| && Recurrence(s, x)
    ensures Diagonalized(s).stop == |s.m| && x == GaussSolve(s)
  {
    SweepableCompletes(s);
    SweepSolvesTridiagonal(s, x);
    GaussSolves(s);
  }

  /** Coefficients that agree with the sweep's give the sweep's recurrence. */
  lemma SweptRecurrence(s: System, ps: seq<real>, qs: seq<real>, x: Vector)
    requires Banded(s) && |ps| == |s.m| - 1 && |qs| == |s.m| == |x|
    requires PsAgree(s, ps, |s.m| - 1) && QsAgree(s, qs, |s.m|)
    requires BackwardRecurrence(ps, qs, x)
    ensures Recurrence(s, x)
  {
    assert Ps(s) == ps;
    assert Qs(s) == qs;
  }

  /** Everything the sweep's answer satisfies, for `tridiagonalAlgorithm` to state at once. */
  lemma SweepConclusions(s: System, x: Vector)
    requires Banded(s) && Sweepable(s) && |x| == |s.m| && Recurrence(s, x)
    ensures TriSolves(s, x)
    ensures IsTridiagonal(s) ==> Solves(s, x)
    ensures IsTridiagonal(s) ==> Diagonalized(s).stop == |s.m| && x == GaussSolve(s)
  {
    SweepSolves(s, x);
    if IsTridiagonal(s) {
      SweepSolvesTridiagonal(s, x);
      SweepAgreesWithGauss(s, x);
    }
  }
}
