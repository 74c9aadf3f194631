/** Solving an n×n linear system, held as an n×(n+1) augmented matrix
    [coefficients | right-hand side], by Gaussian elimination with partial
    pivoting followed by back-substitution.

    The elimination is specified by functions on the matrix as a value
    (PivotRow, SwapRows, EliminateColumn, Step, EliminateFrom); the methods
    run it in place on an array of rows and are proved to agree with them.
    Division by a zero pivot has no value over the reals, so elimination
    requires that no zero pivot is met (NonzeroPivots). */
module GaussianElimination {
  import opened LinearAlgebra

  /** Every row has one entry per unknown plus the right-hand side. */
  ghost predicate IsAugmented(M: Matrix)
  {
    forall r :: 0 <= r < |M| ==> |M[r]| == |M| + 1
  }

  /** w satisfies every equation of the augmented system M. */
  ghost predicate Solves(M: Matrix, w: Vector)
    requires IsAugmented(M)
  {
    |w| == |M| && forall r :: 0 <= r < |M| ==> DotRange(M[r], w, 0, |M|) == M[r][|M|]
  }

  /** Below the diagonal, columns 0 .. c-1 hold zeros. */
  ghost predicate ZeroBelow(M: Matrix, c: nat)
    requires IsAugmented(M)
  {
    forall r, j :: 0 <= j < c && j < r < |M| ==> M[r][j] == 0.0
  }

  /** The first c diagonal entries are nonzero. */
  ghost predicate DiagonalNonzero(M: Matrix, c: nat)
    requires IsAugmented(M) && c <= |M|
  {
    forall r :: 0 <= r < c ==> M[r][r] != 0.0
  }

  // ---------------------------------------------------------------------
  // One elimination step, as a function of the matrix

  /** The scan for the pivot of column i: rows i .. k-1 have been looked at
      and `best` is the current choice; a later row replaces it only when its
      entry in column i is strictly larger in magnitude. */
  ghost function PivotScan(M: Matrix, i: nat, k: nat, best: nat): (p: nat)
    requires IsAugmented(M) && i < |M| && i <= best < k <= |M|
    ensures best <= p < |M|
    decreases |M| - k
  {
    if k == |M| then best
    else PivotScan(M, i, k + 1, if Abs(M[k][i]) > Abs(M[best][i]) then k else best)
  }

  /** If `best` is the first row of largest magnitude among rows i .. k-1,
      the scan ends at the first row of largest magnitude among all rows
      from i. */
  lemma {:induction false} PivotScanMax(M: Matrix, i: nat, k: nat, best: nat)
    requires IsAugmented(M) && i < |M| && i <= best < k <= |M|
    requires forall r :: i <= r < k ==> Abs(M[r][i]) <= Abs(M[best][i])
    requires forall r :: i <= r < best ==> Abs(M[r][i]) < Abs(M[best][i])
    ensures var p := PivotScan(M, i, k, best);
            (forall r :: i <= r < |M| ==> Abs(M[r][i]) <= Abs(M[p][i])) &&
            (forall r :: i <= r < p ==> Abs(M[r][i]) < Abs(M[p][i]))
    decreases |M| - k
  {
    if k < |M| {
      PivotScanMax(M, i, k + 1, if Abs(M[k][i]) > Abs(M[best][i]) then k else best);
    }
  }

  /** The pivot row of column i: among rows i .. n-1, the first one whose
      entry in column i has the largest magnitude. */
  ghost function PivotRow(M: Matrix, i: nat): (p: nat)
    requires IsAugmented(M) && i < |M|
    ensures i <= p < |M|
    ensures forall r :: i <= r < |M| ==> Abs(M[r][i]) <= Abs(M[p][i])
    ensures forall r :: i <= r < p ==> Abs(M[r][i]) < Abs(M[p][i])
  {
    PivotScanMax(M, i, i + 1, i);
    PivotScan(M, i, i + 1, i)
  }

  /** Rows i and p exchanged; every other row stays where it is. */
  function SwapRows(M: Matrix, i: nat, p: nat): (S: Matrix)
    requires i < |M| && p < |M|
    ensures |S| == |M| && S[i] == M[p] && S[p] == M[i]
    ensures forall r :: 0 <= r < |M| && r != i && r != p ==> S[r] == M[r]
  {
    M[i := M[p]][p := M[i]]
  }

  /** Row rk minus f times row ri, on columns `from` onwards only. */
  ghost function SubtractRow(rk: Vector, ri: Vector, from: nat, f: real): (r: Vector)
    requires |rk| <= |ri|
    ensures |r| == |rk|
  {
    seq(|rk|, j requires 0 <= j < |rk| => if from <= j then rk[j] - f * ri[j] else rk[j])
  }

  /** Every row below row i loses the multiple of row i that clears its
      entry in column i. */
  ghost function EliminateColumn(S: Matrix, i: nat): (E: Matrix)
    requires IsAugmented(S) && i < |S| && S[i][i] != 0.0
    ensures |E| == |S| && IsAugmented(E)
    ensures forall r :: 0 <= r <= i ==> E[r] == S[r]
  {
    seq(|S|, k requires 0 <= k < |S| =>
      if k <= i then S[k] else SubtractRow(S[k], S[i], i, S[k][i] / S[i][i]))
  }

  /** Step i of the elimination: bring the pivot row of column i into row i,
      then clear column i below it. */
  ghost function Step(M: Matrix, i: nat): (E: Matrix)
    requires IsAugmented(M) && i < |M| && M[PivotRow(M, i)][i] != 0.0
    ensures |E| == |M| && IsAugmented(E)
    ensures forall r :: 0 <= r < i ==> E[r] == M[r]
    ensures E[i] == M[PivotRow(M, i)]
  {
    EliminateColumn(SwapRows(M, i, PivotRow(M, i)), i)
  }

  /** Steps i .. n-1 all find a nonzero pivot. */
  ghost predicate NonzeroPivots(M: Matrix, i: nat)
    requires IsAugmented(M) && i <= |M|
    decreases |M| - i
  {
    i == |M| || (M[PivotRow(M, i)][i] != 0.0 && NonzeroPivots(Step(M, i), i + 1))
  }

  /** The matrix after steps i .. n-1. */
  ghost function EliminateFrom(M: Matrix, i: nat): (R: Matrix)
    requires IsAugmented(M) && i <= |M| && NonzeroPivots(M, i)
    ensures |R| == |M| && IsAugmented(R)
    ensures forall r :: 0 <= r < i ==> R[r] == M[r]
    decreases |M| - i
  {
    if i == |M| then M else EliminateFrom(Step(M, i), i + 1)
  }

  // ---------------------------------------------------------------------
  // What elimination achieves

  /** Exchanging two rows keeps the set of solutions. */
  lemma SwapKeepsSolutions(M: Matrix, i: nat, p: nat, w: Vector)
    requires IsAugmented(M) && i < |M| && p < |M|
    ensures IsAugmented(SwapRows(M, i, p))
    ensures Solves(M, w) <==> Solves(SwapRows(M, i, p), w)
  {
    var S := SwapRows(M, i, p);
    if Solves(S, w) {
      forall r | 0 <= r < |M| ensures DotRange(M[r], w, 0, |M|) == M[r][|M|] {
        var s := if r == i then p else if r == p then i else r;
        assert S[s] == M[r];
      }
    }
  }

  lemma ClearedEntry(a: real, b: real)
    requires b != 0.0
    ensures a - (a / b) * b == 0.0
  {
  }

  lemma CancelNonzero(a: real, x: real, y: real)
    requires a != 0.0 && a * x == a * y
    ensures x == y
  {
    assert x == (a * x) / a && y == (a * y) / a;
  }

  /** Subtracting f times row ri from row rk, on columns `from` onwards,
      subtracts f times ri's partial dot product, provided ri is zero left
      of `from`. */
  lemma {:induction false} DotRangeSubtractRow(rk: Vector, ri: Vector, from: nat, f: real, w: Vector, lo: nat, hi: nat)
    requires |rk| == |ri| && lo <= hi <= |rk| && hi <= |w|
    requires forall j :: lo <= j < from && j < hi ==> ri[j] == 0.0
    ensures DotRange(SubtractRow(rk, ri, from, f), w, lo, hi) == DotRange(rk, w, lo, hi) - f * DotRange(ri, w, lo, hi)
    decreases hi - lo
  {
    if lo < hi {
      DotRangeSubtractRow(rk, ri, from, f, w, lo + 1, hi);
      var e := SubtractRow(rk, ri, from, f);
      assert e[lo] == rk[lo] - f * ri[lo];
      assert e[lo] * w[lo] == rk[lo] * w[lo] - f * (ri[lo] * w[lo]);
    }
  }

  /** If w satisfies equation ri, and ri is zero left of `from`, then
      subtracting a multiple of ri from rk leaves the residual of rk at w
      unchanged. */
  lemma SubtractRowKeepsResidual(rk: Vector, ri: Vector, from: nat, f: real, w: Vector)
    requires |rk| == |ri| == |w| + 1 && from <= |w|
    requires forall j :: 0 <= j < from ==> ri[j] == 0.0
    requires DotRange(ri, w, 0, |w|) == ri[|w|]
    ensures var e := SubtractRow(rk, ri, from, f);
            DotRange(e, w, 0, |w|) - e[|w|] == DotRange(rk, w, 0, |w|) - rk[|w|]
  {
    var n := |w|;
    var e := SubtractRow(rk, ri, from, f);
    ResidualAsDot(ri, w);
    ResidualAsDot(rk, w);
    ResidualAsDot(e, w);
    DotRangeSubtractRow(rk, ri, from, f, w + [-1.0], 0, n + 1);
  }

  /** Row k below the pivot row i after step i has the same residual at any
      w that satisfies the pivot row. */
  lemma SubtractRowResidual(S: Matrix, i: nat, k: nat, w: Vector)
    requires IsAugmented(S) && i < k < |S| && S[i][i] != 0.0 && ZeroBelow(S, i) && |w| == |S|
    requires DotRange(S[i], w, 0, |S|) == S[i][|S|]
    ensures var e := EliminateColumn(S, i)[k];
            DotRange(e, w, 0, |S|) - e[|S|] == DotRange(S[k], w, 0, |S|) - S[k][|S|]
  {
    var f := S[k][i] / S[i][i];
    var ri := S[i];
    assert |ri| == |S| + 1 && |S[k]| == |S| + 1;
    assert forall j :: 0 <= j < i ==> ri[j] == 0.0;
    assert EliminateColumn(S, i)[k] == SubtractRow(S[k], ri, i, f);
    SubtractRowKeepsResidual(S[k], ri, i, f, w);
  }

  /** Once the columns left of i are clear below the diagonal, the partial
      row update of step i is a full row operation, so it keeps the set of
      solutions. */
  lemma EliminateColumnKeepsSolutions(S: Matrix, i: nat, w: Vector)
    requires IsAugmented(S) && i < |S| && S[i][i] != 0.0 && ZeroBelow(S, i)
    ensures Solves(S, w) <==> Solves(EliminateColumn(S, i), w)
  {
    var n := |S|;
    var E := EliminateColumn(S, i);
    if |w| == n && DotRange(S[i], w, 0, n) == S[i][n] {
      forall k | i < k < n
        ensures DotRange(E[k], w, 0, n) - E[k][n] == DotRange(S[k], w, 0, n) - S[k][n]
      {
        SubtractRowResidual(S, i, k, w);
      }
      assert forall r :: 0 <= r <= i ==> E[r] == S[r];
    }
  }

  /** Step i zeroes column i below the diagonal and leaves the columns left
      of i alone. */
  lemma EliminateColumnClears(S: Matrix, i: nat)
    requires IsAugmented(S) && i < |S| && S[i][i] != 0.0
    ensures forall k :: i < k < |S| ==> EliminateColumn(S, i)[k][i] == 0.0
    ensures forall k, j :: i < k < |S| && 0 <= j < i ==> EliminateColumn(S, i)[k][j] == S[k][j]
  {
    var E := EliminateColumn(S, i);
    forall k | i < k < |S| ensures E[k][i] == 0.0 {
      assert E[k] == SubtractRow(S[k], S[i], i, S[k][i] / S[i][i]);
      ClearedEntry(S[k][i], S[i][i]);
    }
    forall k, j | i < k < |S| && 0 <= j < i ensures E[k][j] == S[k][j] {
      assert E[k] == SubtractRow(S[k], S[i], i, S[k][i] / S[i][i]);
    }
  }

  /** Step i keeps the set of solutions and extends the cleared columns and
      the nonzero diagonal by one. */
  lemma StepProperties(M: Matrix, i: nat)
    requires IsAugmented(M) && i < |M| && M[PivotRow(M, i)][i] != 0.0
    requires ZeroBelow(M, i) && DiagonalNonzero(M, i)
    ensures ZeroBelow(Step(M, i), i + 1) && DiagonalNonzero(Step(M, i), i + 1)
    ensures forall w :: Solves(M, w) <==> Solves(Step(M, i), w)
  {
    var n := |M|;
    var p := PivotRow(M, i);
    var S := SwapRows(M, i, p);
    var E := Step(M, i);
    assert ZeroBelow(S, i);
    assert S[i][i] != 0.0;
    EliminateColumnClears(S, i);
    assert E == EliminateColumn(S, i);
    forall w ensures Solves(M, w) <==> Solves(E, w) {
      SwapKeepsSolutions(M, i, p, w);
      EliminateColumnKeepsSolutions(S, i, w);
    }
  }

  /** Elimination from step i on leaves an upper-triangular system with a
      nonzero diagonal and the same solutions. */
  lemma {:induction false} EliminationProperties(M: Matrix, i: nat)
    requires IsAugmented(M) && i <= |M| && NonzeroPivots(M, i)
    requires ZeroBelow(M, i) && DiagonalNonzero(M, i)
    ensures ZeroBelow(EliminateFrom(M, i), |M|) && DiagonalNonzero(EliminateFrom(M, i), |M|)
    ensures forall w :: Solves(M, w) <==> Solves(EliminateFrom(M, i), w)
    decreases |M| - i
  {
    if i < |M| {
      StepProperties(M, i);
      EliminationProperties(Step(M, i), i + 1);
    }
  }

  /** A row that is zero left of column i, with a nonzero entry in column i,
      fixes unknown i once the unknowns after i are fixed. */
  lemma RowFixesUnknown(row: Vector, v: Vector, w: Vector, i: nat)
    requires |row| == |v| + 1 && |v| == |w| && i < |v| && row[i] != 0.0
    requires forall j :: 0 <= j < i ==> row[j] == 0.0
    requires forall j :: i < j < |v| ==> v[j] == w[j]
    requires DotRange(row, v, 0, |v|) == row[|v|] && DotRange(row, w, 0, |v|) == row[|v|]
    ensures v[i] == w[i]
  {
    var n := |v|;
    DotRangeSkipZeros(row, v, 0, i, n);
    DotRangeSkipZeros(row, w, 0, i, n);
    HeadDetermined(row, v, w, i);
  }

  /** Two vectors that agree after position i and have the same partial dot
      product from i with a row whose entry i is nonzero agree at i too. */
  lemma HeadDetermined(row: Vector, v: Vector, w: Vector, i: nat)
    requires |row| == |v| + 1 && |v| == |w| && i < |v| && row[i] != 0.0
    requires forall j :: i < j < |v| ==> v[j] == w[j]
    requires DotRange(row, v, i, |v|) == DotRange(row, w, i, |v|)
    ensures v[i] == w[i]
  {
    DotRangeAgree(row, row, v, w, i + 1, |v|);
    CancelNonzero(row[i], v[i], w[i]);
  }

  /** An upper-triangular system with a nonzero diagonal has at most one
      solution: two solutions agree on unknowns i .. n-1. */
  lemma {:induction false} TriangularSolutionUnique(R: Matrix, v: Vector, w: Vector, i: nat)
    requires IsAugmented(R) && ZeroBelow(R, |R|) && DiagonalNonzero(R, |R|)
    requires Solves(R, v) && Solves(R, w) && i <= |R|
    ensures forall j :: i <= j < |R| ==> v[j] == w[j]
    decreases |R| - i
  {
    var n := |R|;
    if i < n {
      TriangularSolutionUnique(R, v, w, i + 1);
      var row := R[i];
      assert |row| == n + 1 && row[i] != 0.0;
      assert forall j :: 0 <= j < i ==> row[j] == 0.0;
      assert DotRange(row, v, 0, n) == row[n] && DotRange(row, w, 0, n) == row[n];
      RowFixesUnknown(row, v, w, i);
    }
  }

  /** If elimination meets no zero pivot, the system has at most one
      solution. */
  lemma SolutionUnique(M: Matrix, v: Vector, w: Vector)
    requires IsAugmented(M) && NonzeroPivots(M, 0)
    requires Solves(M, v) && Solves(M, w)
    ensures v == w
  {
    EliminationProperties(M, 0);
    TriangularSolutionUnique(EliminateFrom(M, 0), v, w, 0);
  }

  // ---------------------------------------------------------------------
  // The solver, in place

  /** The pivot search of step i: the first row among i .. n-1 whose entry
      in column i has the largest magnitude (a later row replaces the
      current choice only when strictly larger). */
  method SelectPivot(A: array<seq<real>>, i: nat) returns (maxRow: nat)
    requires IsAugmented(A[..]) && i < A.Length
    ensures maxRow == PivotRow(A[..], i)
  {
    ghost var M := A[..];
    maxRow := i;
    var k := i + 1;
    while k < A.Length
      invariant i < k <= A.Length
      invariant i <= maxRow < k
      invariant PivotScan(M, i, k, maxRow) == PivotRow(M, i)
    {
      if Abs(A[k][i]) > Abs(A[maxRow][i]) {
        maxRow := k;
      }
      k := k + 1;
    }
  }

  /** Clears column i below row i, row by row, updating columns i .. n of
      each lower row in place. */
  method EliminateBelow(A: array<seq<real>>, i: nat)
    requires IsAugmented(A[..]) && i < A.Length && A[i][i] != 0.0
    modifies A
    ensures A[..] == EliminateColumn(old(A[..]), i)
  {
    ghost var S := A[..];
    var n := A.Length;
    var k := i + 1;
    while k < n
      invariant i < k <= n
      invariant forall r :: 0 <= r < n && (r <= i || k <= r) ==> A[r] == S[r]
      invariant forall r :: i < r < k ==> A[r] == SubtractRow(S[r], S[i], i, S[r][i] / S[i][i])
    {
      var factor := A[k][i] / A[i][i];
      SubtractPivotRow(A, i, k, factor);
      k := k + 1;
    }
    assert forall r :: 0 <= r < n ==> A[r] == EliminateColumn(S, i)[r];
  }

  /** Row k loses factor times row i in columns i .. n, in place. */
  method SubtractPivotRow(A: array<seq<real>>, i: nat, k: nat, factor: real)
    requires IsAugmented(A[..]) && i < k < A.Length
    modifies A
    ensures IsAugmented(A[..])
    ensures A[k] == SubtractRow(old(A[k]), A[i], i, factor)
    ensures forall r :: 0 <= r < A.Length && r != k ==> A[r] == old(A[r])
  {
    ghost var rk := A[k];
    var n := A.Length;
    var j := i;
    while j <= n
      invariant i <= j <= n + 1
      invariant forall r :: 0 <= r < n && r != k ==> A[r] == old(A[r])
      invariant |A[k]| == n + 1
      invariant forall c :: 0 <= c < n + 1 ==> A[k][c] == if i <= c < j then rk[c] - factor * A[i][c] else rk[c]
    {
      A[k] := A[k][j := A[k][j] - factor * A[i][j]];
      j := j + 1;
    }
    assert forall c :: 0 <= c < n + 1 ==> A[k][c] == SubtractRow(rk, A[i], i, factor)[c];
  }

  /** One step of the elimination loop leaves the remaining steps. */
  lemma StepUnfold(M: Matrix, i: nat, E: Matrix)
    requires IsAugmented(M) && i < |M| && NonzeroPivots(M, i) && E == Step(M, i)
    ensures IsAugmented(E) && NonzeroPivots(E, i + 1)
    ensures EliminateFrom(E, i + 1) == EliminateFrom(M, i)
  {
  }

  /** Step i of forward elimination: swap the pivot row of column i into
      row i, then clear column i below it. */
  method EliminationStep(A: array<seq<real>>, i: nat)
    requires IsAugmented(A[..]) && i < A.Length && NonzeroPivots(A[..], i)
    modifies A
    ensures A[..] == Step(old(A[..]), i)
  {
    ghost var M := A[..];
    var maxRow := SelectPivot(A, i);
    A[i], A[maxRow] := A[maxRow], A[i];
    assert A[..] == SwapRows(M, i, maxRow);
    EliminateBelow(A, i);
  }

  /** Forward elimination with partial pivoting, one step per column. */
  method Eliminate(A: array<seq<real>>)
    requires IsAugmented(A[..]) && NonzeroPivots(A[..], 0)
    modifies A
    ensures A[..] == EliminateFrom(old(A[..]), 0)
  {
    ghost var R := EliminateFrom(A[..], 0);
    var n := A.Length;
    var i := 0;
    while i < n
      invariant 0 <= i <= n
      invariant IsAugmented(A[..]) && NonzeroPivots(A[..], i)
      invariant EliminateFrom(A[..], i) == R
    {
      ghost var M := A[..];
      EliminationStep(A, i);
      StepUnfold(M, i, A[..]);
      i := i + 1;
    }
  }

  /** Unknown i, known to be wi, moved to the right-hand side of every row
      above row i: each such row loses its coefficient of unknown i times wi
      from its right-hand side. */
  ghost function MovedRight(C: Matrix, i: nat, wi: real): (C': Matrix)
    requires IsAugmented(C) && i < |C|
    ensures |C'| == |C| && IsAugmented(C')
  {
    seq(|C|, r requires 0 <= r < |C| => if r < i then MoveTerm(C[r], |C|, i, wi) else C[r])
  }

  /** A row whose right-hand side (entry n) loses its coefficient of unknown
      i times wi. */
  function MoveTerm(row: Vector, n: nat, i: nat, wi: real): (row': Vector)
    requires i < n < |row|
    ensures |row'| == |row|
  {
    row[n := row[n] - row[i] * wi]
  }

  /** The inner loop of back-substitution: the term of unknown i moves to the
      right-hand side, row by row. */
  method MoveTermRight(A: array<seq<real>>, i: nat, wi: real)
    requires IsAugmented(A[..]) && i < A.Length
    modifies A
    ensures A[..] == MovedRight(old(A[..]), i, wi)
  {
    ghost var C := A[..];
    var n := A.Length;
    for k := 0 to i
      invariant forall r :: 0 <= r < n ==> A[r] == if r < k then MovedRight(C, i, wi)[r] else C[r]
    {
      A[k] := MoveTerm(A[k], n, i, wi);
      assert A[k] == MovedRight(C, i, wi)[k];
    }
    assert forall r :: 0 <= r < n ==> A[r] == MovedRight(C, i, wi)[r];
  }

  /** The state of back-substitution on the triangular system B once the
      unknowns after row i are in w: the coefficients of C are those of B; the
      rows from i + 1 on are satisfied by w from their diagonal on; and every
      right-hand side of C has had the terms of the known unknowns after its
      diagonal moved over. */
  ghost predicate BackSubstituted(C: Matrix, B: Matrix, w: Vector, i: int)
    requires IsAugmented(B)
  {
    var n := |B|;
    |C| == n && |w| == n && -1 <= i < n &&
    (forall r :: 0 <= r < n ==> |C[r]| == n + 1) &&
    (forall r, c :: 0 <= r < n && 0 <= c < n ==> C[r][c] == B[r][c]) &&
    (forall r :: 0 <= r <= i ==> C[r][n] == B[r][n] - DotRange(B[r], w, i + 1, n)) &&
    (forall r :: i < r < n ==> C[r][n] == B[r][n] - DotRange(B[r], w, r + 1, n)) &&
    (forall r :: i < r < n ==> DotRange(B[r], w, r, n) == B[r][n])
  }

  /** One iteration of back-substitution: unknown i is the reduced right-hand
      side of row i over its diagonal entry; moving its term to the right
      extends the state by one row. */
  lemma BackSubstituteStep(C: Matrix, B: Matrix, w: Vector, i: nat)
    requires IsAugmented(B) && DiagonalNonzero(B, |B|)
    requires BackSubstituted(C, B, w, i)
    ensures IsAugmented(C) && C[i][i] != 0.0
    ensures BackSubstituted(MovedRight(C, i, C[i][|B|] / C[i][i]), B, w[i := C[i][|B|] / C[i][i]], i - 1)
  {
    var n := |B|;
    var wi := C[i][n] / C[i][i];
    assert C[i][i] == B[i][i];
    SolveRow(B, w, i, wi);
    SetUnknown(B, w, i, wi);
    var w' := w[i := wi];
    var C' := MovedRight(C, i, wi);
    forall r | 0 <= r < i ensures C'[r][n] == B[r][n] - DotRange(B[r], w', i, n) {
      assert C'[r][n] == C[r][n] - C[r][i] * wi;
    }
    forall r | i <= r < n ensures C'[r][n] == B[r][n] - DotRange(B[r], w', r + 1, n) {
      assert C'[r] == C[r];
    }
  }

  lemma SolveDiagonal(a: real, x: real, d: real, s: real)
    requires a != 0.0 && x == (s - d) / a
    ensures a * x + d == s && a * x == s - d
  {
  }

  /** Setting unknown i from row i satisfies row i, given the unknowns after it. */
  lemma SolveRow(B: Matrix, w0: Vector, i: nat, v: real)
    requires IsAugmented(B) && i < |B| && |w0| == |B| && B[i][i] != 0.0
    requires v == (B[i][|B|] - DotRange(B[i], w0, i + 1, |B|)) / B[i][i]
    ensures DotRange(B[i], w0[i := v], i, |B|) == B[i][|B|]
  {
    var n := |B|;
    SolveDiagonal(B[i][i], v, DotRange(B[i], w0, i + 1, n), B[i][n]);
    DotRangeAgree(B[i], B[i], w0, w0[i := v], i + 1, n);
  }

  /** Setting unknown i changes no partial dot product that starts after
      column i, and every row sees unknown i as one more term of its partial
      dot product from column i. */
  lemma SetUnknown(B: Matrix, w0: Vector, i: nat, v: real)
    requires IsAugmented(B) && i < |B| && |w0| == |B|
    ensures forall r, lo :: 0 <= r < |B| && i < lo <= |B| ==>
              DotRange(B[r], w0[i := v], lo, |B|) == DotRange(B[r], w0, lo, |B|)
    ensures forall r :: 0 <= r < |B| ==>
              DotRange(B[r], w0[i := v], i, |B|) == B[r][i] * v + DotRange(B[r], w0, i + 1, |B|)
  {
    var n := |B|;
    var w := w0[i := v];
    forall r, lo | 0 <= r < n && i < lo <= n ensures DotRange(B[r], w, lo, n) == DotRange(B[r], w0, lo, n) {
      DotRangeAgree(B[r], B[r], w0, w, lo, n);
    }
    forall r | 0 <= r < n ensures DotRange(B[r], w, i, n) == B[r][i] * v + DotRange(B[r], w0, i + 1, n) {
      DotRangeAgree(B[r], B[r], w0, w, i + 1, n);
    }
  }

  /** The right-hand sides of B reduced by the terms after the diagonal. */
  ghost function Reduced(B: Matrix, w: Vector): (C: Matrix)
    requires IsAugmented(B) && |w| == |B|
    ensures |C| == |B| && IsAugmented(C)
  {
    seq(|B|, r requires 0 <= r < |B| => B[r][|B| := B[r][|B|] - DotRange(B[r], w, r + 1, |B|)])
  }

  /** When every row is done, the triangular system is solved, the right-hand
      sides are fully reduced, and each reduced right-hand side is the
      diagonal entry times its unknown. */
  lemma BackSubstituteDone(C: Matrix, B: Matrix, w: Vector)
    requires IsAugmented(B) && ZeroBelow(B, |B|)
    requires BackSubstituted(C, B, w, -1)
    ensures Solves(B, w) && C == Reduced(B, w)
    ensures forall r :: 0 <= r < |B| ==> Reduced(B, w)[r][|B|] == B[r][r] * w[r]
  {
    var n := |B|;
    forall r | 0 <= r < n ensures DotRange(B[r], w, 0, n) == B[r][n] {
      DotRangeSkipZeros(B[r], w, 0, r, n);
    }
    forall r | 0 <= r < n ensures C[r] == Reduced(B, w)[r] {
      assert forall c :: 0 <= c <= n ==> C[r][c] == Reduced(B, w)[r][c];
    }
  }

  /** Back-substitution on an upper-triangular system with a nonzero
      diagonal: returns the solution and leaves the right-hand side column
      reduced in place, each row's entry being its diagonal entry times its
      unknown. */
  method BackSubstitute(A: array<seq<real>>) returns (w: Vector)
    requires IsAugmented(A[..]) && ZeroBelow(A[..], A.Length) && DiagonalNonzero(A[..], A.Length)
    modifies A
    ensures Solves(old(A[..]), w)
    ensures A[..] == Reduced(old(A[..]), w)
  {
    ghost var B := A[..];
    var n := A.Length;
    w := Zeros(n);
    var i := n - 1;
    while i >= 0
      invariant BackSubstituted(A[..], B, w, i)
    {
      BackSubstituteStep(A[..], B, w, i);
      var wi := A[i][n] / A[i][i];
      MoveTermRight(A, i, wi);
      w := w[i := wi];
      i := i - 1;
    }
    BackSubstituteDone(A[..], B, w);
  }
}
