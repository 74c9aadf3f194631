/** Vectors and matrices of reals, and the partial dot product that the
    forecast, the Gram matrix and the solver are all built from. */
module LinearAlgebra {

  type Vector = seq<real>
  type Matrix = seq<Vector>

  function Abs(x: real): (r: real)
    ensures 0.0 <= r && (r == x || r == -x)
  {
    if x < 0.0 then -x else x
  }

  /** The vector of n zeros. */
  function Zeros(n: nat): (z: Vector)
    ensures |z| == n && forall j :: 0 <= j < n ==> z[j] == 0.0
  {
    seq(n, _ => 0.0)
  }

  /** Every row of X has exactly n entries. */
  ghost predicate HasWidth(X: Matrix, n: nat)
  {
    forall r :: 0 <= r < |X| ==> |X[r]| == n
  }

  /** a[lo] * b[lo] + ... + a[hi - 1] * b[hi - 1]. */
  function DotRange(a: Vector, b: Vector, lo: nat, hi: nat): real
    requires lo <= hi <= |a| && hi <= |b|
    decreases hi - lo
  {
    if lo == hi then 0.0 else a[lo] * b[lo] + DotRange(a, b, lo + 1, hi)
  }

  /** The partial dot product is linear in its first argument: adding f
      times b to a adds f times b's partial dot product. */
  lemma {:induction false} DotRangeCombine(a: Vector, b: Vector, c: Vector, f: real, w: Vector, lo: nat, hi: nat)
    requires lo <= hi <= |a| && hi <= |b| && hi <= |c| && hi <= |w|
    requires forall j :: lo <= j < hi ==> c[j] == a[j] + f * b[j]
    ensures DotRange(c, w, lo, hi) == DotRange(a, w, lo, hi) + f * DotRange(b, w, lo, hi)
    decreases hi - lo
  {
    if lo < hi {
      DotRangeCombine(a, b, c, f, w, lo + 1, hi);
      assert c[lo] * w[lo] == a[lo] * w[lo] + f * (b[lo] * w[lo]);
    }
  }

  /** Entries outside [lo, hi) do not take part in the partial dot product. */
  lemma {:induction false} DotRangeAgree(a: Vector, a': Vector, b: Vector, b': Vector, lo: nat, hi: nat)
    requires lo <= hi <= |a| && hi <= |a'| && hi <= |b| && hi <= |b'|
    requires forall j :: lo <= j < hi ==> a[j] == a'[j] && b[j] == b'[j]
    ensures DotRange(a, b, lo, hi) == DotRange(a', b', lo, hi)
    decreases hi - lo
  {
    if lo < hi {
      DotRangeAgree(a, a', b, b', lo + 1, hi);
    }
  }

  /** Leading zero coefficients of a may be skipped. */
  lemma {:induction false} DotRangeSkipZeros(a: Vector, b: Vector, lo: nat, mid: nat, hi: nat)
    requires lo <= mid <= hi <= |a| && hi <= |b|
    requires forall j :: lo <= j < mid ==> a[j] == 0.0
    ensures DotRange(a, b, lo, hi) == DotRange(a, b, mid, hi)
    decreases mid - lo
  {
    if lo < mid {
      DotRangeSkipZeros(a, b, lo + 1, mid, hi);
    }
  }

  /** Splitting off the last term of a partial dot product. */
  lemma {:induction false} DotRangeLast(a: Vector, b: Vector, lo: nat, hi: nat)
    requires lo <= hi < |a| && hi < |b|
    ensures DotRange(a, b, lo, hi + 1) == DotRange(a, b, lo, hi) + a[hi] * b[hi]
    decreases hi - lo
  {
    if lo < hi {
      DotRangeLast(a, b, lo + 1, hi);
    }
  }

  /** The residual of an equation row · w = row[n] (its left-hand side minus
      its right-hand side) is the dot product of the row with w extended by -1. */
  lemma ResidualAsDot(row: Vector, w: Vector)
    requires |row| == |w| + 1
    ensures DotRange(row, w + [-1.0], 0, |w| + 1) == DotRange(row, w, 0, |w|) - row[|w|]
  {
    var n := |w|;
    DotRangeLast(row, w + [-1.0], 0, n);
    DotRangeAgree(row, row, w + [-1.0], w, 0, n);
  }
}
