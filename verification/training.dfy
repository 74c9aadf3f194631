/** Training-set assembly: the completed records become the rows of the
    design matrix X and the targets y, and X and y are reduced to the
    normal equations  XᵀX · w = Xᵀy,  held as an augmented matrix for the
    solver. */
module Training {
  import opened LinearAlgebra
  import opened ProcessRecords
  import opened Forecasting
  import opened GaussianElimination

  /** Only records with exactly this status are used for training. */
  predicate IsCompleted(p: Process)
  {
    p.status == "COMPLETED"
  }

  /** The completed records, in their original order. */
  function Completed(ps: seq<Process>): (c: seq<Process>)
    ensures |c| <= |ps|
  {
    if ps == [] then []
    else Completed(ps[..|ps| - 1]) + (if IsCompleted(ps[|ps| - 1]) then [ps[|ps| - 1]] else [])
  }

  /** The filter keeps a record if and only if it is completed. */
  lemma {:induction false} CompletedExactly(ps: seq<Process>)
    ensures forall p :: p in Completed(ps) <==> p in ps && IsCompleted(p)
  {
    if ps != [] {
      var init := ps[..|ps| - 1];
      CompletedExactly(init);
      assert ps == init + [ps[|ps| - 1]];
    }
  }

  /** Filtering distributes over concatenation. */
  lemma {:induction false} CompletedAppend(a: seq<Process>, b: seq<Process>)
    ensures Completed(a + b) == Completed(a) + Completed(b)
    decreases |b|
  {
    if b == [] {
      assert a + b == a;
    } else {
      var b' := b[..|b| - 1];
      assert (a + b)[..|a + b| - 1] == a + b';
      CompletedAppend(a, b');
    }
  }

  /** A record whose status is not COMPLETED contributes nothing, wherever
      it stands and whatever its time stamps. */
  lemma NonCompletedIgnored(a: seq<Process>, p: Process, b: seq<Process>)
    requires !IsCompleted(p)
    ensures Completed(a + [p] + b) == Completed(a + b)
  {
    assert Completed([p]) == [] by {
      assert [p][..0] == [];
    }
    CompletedAppend(a, [p]);
    assert Completed(a + [p]) == Completed(a);
    CompletedAppend(a + [p], b);
    CompletedAppend(a, b);
  }

  /** The training target of a record: its elapsed whole seconds. */
  function Duration(p: Process): real
  {
    ToSeconds(p.startTime, p.endTime) as real
  }

  /** The design matrix: one feature row per completed record. */
  function TrainingRows(ps: seq<Process>): (X: Matrix)
    ensures |X| == |Completed(ps)| && HasWidth(X, NumFeatures)
    ensures forall r :: 0 <= r < |X| ==> X[r][0] == 1.0
  {
    var c := Completed(ps);
    seq(|c|, r requires 0 <= r < |c| => FeatureVector(c[r]))
  }

  /** The targets: one elapsed time per completed record. */
  function TrainingTargets(ps: seq<Process>): (y: Vector)
    ensures |y| == |Completed(ps)|
  {
    var c := Completed(ps);
    seq(|c|, r requires 0 <= r < |c| => Duration(c[r]))
  }

  /** Appending a record adds a row and a target if and only if it is
      completed. */
  lemma TrainingSetAppend(ps: seq<Process>, p: Process)
    ensures TrainingRows(ps + [p]) == TrainingRows(ps) + (if IsCompleted(p) then [FeatureVector(p)] else [])
    ensures TrainingTargets(ps + [p]) == TrainingTargets(ps) + (if IsCompleted(p) then [Duration(p)] else [])
  {
    assert (ps + [p])[..|ps|] == ps;
  }

  /** The filtering loop: one row and one target for each completed record,
      nothing for the others. */
  method BuildTrainingSet(processes: seq<Process>) returns (X: Matrix, y: Vector)
    ensures X == TrainingRows(processes) && y == TrainingTargets(processes)
    ensures |X| == |y| == |Completed(processes)|
    ensures HasWidth(X, NumFeatures) && forall r :: 0 <= r < |X| ==> X[r][0] == 1.0
  {
    X, y := [], [];
    for idx := 0 to |processes|
      invariant X == TrainingRows(processes[..idx]) && y == TrainingTargets(processes[..idx])
    {
      var p := processes[idx];
      TrainingSetAppend(processes[..idx], p);
      assert processes[..idx + 1] == processes[..idx] + [p];
      if p.status != "COMPLETED" {
        continue;
      }
      var dur := ToSeconds(p.startTime, p.endTime) as real;
      y := y + [dur];
      X := X + [FeatureVector(p)];
    }
    assert processes[..|processes|] == processes;
  }

  // ---------------------------------------------------------------------
  // The normal equations

  /** Σ over the first m rows r of X of X[r][j] * X[r][k]. */
  ghost function GramEntry(X: Matrix, n: nat, j: nat, k: nat, m: nat): real
    requires HasWidth(X, n) && j < n && k < n && m <= |X|
  {
    if m == 0 then 0.0 else GramEntry(X, n, j, k, m - 1) + X[m - 1][j] * X[m - 1][k]
  }

  /** Σ over the first m rows r of X of X[r][j] * y[r]. */
  ghost function MomentEntry(X: Matrix, y: Vector, n: nat, j: nat, m: nat): real
    requires HasWidth(X, n) && |y| == |X| && j < n && m <= |X|
  {
    if m == 0 then 0.0 else MomentEntry(X, y, n, j, m - 1) + X[m - 1][j] * y[m - 1]
  }

  /** Row j of the Gram matrix of the first m rows of X. */
  ghost function GramRow(X: Matrix, n: nat, j: nat, m: nat): (g: Vector)
    requires HasWidth(X, n) && j < n && m <= |X|
    ensures |g| == n
  {
    seq(n, k requires 0 <= k < n => GramEntry(X, n, j, k, m))
  }

  /** XᵀX for an m×n matrix X. */
  ghost function Gram(X: Matrix, n: nat): (G: Matrix)
    requires HasWidth(X, n)
    ensures |G| == n && HasWidth(G, n)
  {
    seq(n, j requires 0 <= j < n => GramRow(X, n, j, |X|))
  }

  /** Xᵀy for an m×n matrix X. */
  ghost function Moment(X: Matrix, y: Vector, n: nat): (b: Vector)
    requires HasWidth(X, n) && |y| == |X|
    ensures |b| == n
  {
    seq(n, j requires 0 <= j < n => MomentEntry(X, y, n, j, |X|))
  }

  /** y[0] + ... + y[m - 1]. */
  ghost function Sum(y: Vector, m: nat): real
    requires m <= |y|
  {
    if m == 0 then 0.0 else Sum(y, m - 1) + y[m - 1]
  }

  /** XᵀX is symmetric. */
  lemma {:induction false} GramSymmetric(X: Matrix, n: nat, j: nat, k: nat, m: nat)
    requires HasWidth(X, n) && j < n && k < n && m <= |X|
    ensures GramEntry(X, n, j, k, m) == GramEntry(X, n, k, j, m)
  {
    if m > 0 {
      GramSymmetric(X, n, j, k, m - 1);
    }
  }

  /** With the bias column all ones, the corner of XᵀX counts the rows and
      the first entry of Xᵀy sums the targets. */
  lemma {:induction false} GramBias(X: Matrix, y: Vector, n: nat, m: nat)
    requires HasWidth(X, n) && 0 < n && |y| == |X| && m <= |X|
    requires forall r :: 0 <= r < |X| ==> X[r][0] == 1.0
    ensures GramEntry(X, n, 0, 0, m) == m as real
    ensures MomentEntry(X, y, n, 0, m) == Sum(y, m)
  {
    if m > 0 {
      GramBias(X, y, n, m - 1);
      assert X[m - 1][0] == 1.0;
    }
  }

  /** Targets that are exactly linear in the rows, y[r] = X[r]·w, make w
      satisfy row j of the normal equations: (XᵀX·w)[j] = (Xᵀy)[j]. */
  lemma {:induction false} ExactFitSolvesNormalEquations(X: Matrix, y: Vector, w: Vector, n: nat, j: nat, m: nat)
    requires HasWidth(X, n) && |y| == |X| && |w| == n && j < n && m <= |X|
    requires forall r :: 0 <= r < |X| ==> DotRange(X[r], w, 0, n) == y[r]
    ensures DotRange(GramRow(X, n, j, m), w, 0, n) == MomentEntry(X, y, n, j, m)
  {
    var row := GramRow(X, n, j, m);
    if m == 0 {
      DotRangeSkipZeros(row, w, 0, n, n);
    } else {
      ExactFitSolvesNormalEquations(X, y, w, n, j, m - 1);
      GramRowStep(X, n, j, m);
      DotRangeCombine(GramRow(X, n, j, m - 1), X[m - 1], row, X[m - 1][j], w, 0, n);
    }
  }

  /** Adding row m - 1 of X to the Gram row j adds X[m-1][j] times that row. */
  lemma GramRowStep(X: Matrix, n: nat, j: nat, m: nat)
    requires HasWidth(X, n) && j < n && 0 < m <= |X|
    ensures |X[m - 1]| == n
    ensures forall k :: 0 <= k < n ==> GramRow(X, n, j, m)[k] == GramRow(X, n, j, m - 1)[k] + X[m - 1][j] * X[m - 1][k]
  {
  }

  /** The innermost accumulation loop: row j of XᵀX gains x[j] * x[k] in
      every column k. */
  method AccumulateGramRow(row: Vector, x: Vector, j: nat) returns (row': Vector)
    requires |row| == |x| && j < |x|
    ensures |row'| == |row|
    ensures forall k :: 0 <= k < |row| ==> row'[k] == row[k] + x[j] * x[k]
  {
    row' := row;
    var k := 0;
    while k < |row|
      invariant 0 <= k <= |row| && |row'| == |row|
      invariant forall b :: 0 <= b < k ==> row'[b] == row[b] + x[j] * x[b]
      invariant forall b :: k <= b < |row| ==> row'[b] == row[b]
    {
      row' := row'[k := row'[k] + x[j] * x[k]];
      k := k + 1;
    }
  }

  /** XtX and Xty hold the sums over the first m rows of X. */
  ghost predicate PartialSums(X: Matrix, y: Vector, n: nat, m: nat, XtX: Matrix, Xty: Vector)
    requires HasWidth(X, n) && |y| == |X| && m <= |X|
  {
    |XtX| == n && HasWidth(XtX, n) && |Xty| == n &&
    (forall a, b :: 0 <= a < n && 0 <= b < n ==> XtX[a][b] == GramEntry(X, n, a, b, m)) &&
    (forall a :: 0 <= a < n ==> Xty[a] == MomentEntry(X, y, n, a, m))
  }

  /** The normal-equations assembly: one pass over the rows, accumulating
      XᵀX and Xᵀy entry by entry. */
  method NormalEquations(X: Matrix, y: Vector) returns (XtX: Matrix, Xty: Vector)
    requires |X| > 0 && |y| == |X| && HasWidth(X, |X[0]|)
    ensures XtX == Gram(X, |X[0]|) && Xty == Moment(X, y, |X[0]|)
  {
    var m, n := |X|, |X[0]|;
    XtX := seq(n, _ => Zeros(n));
    Xty := Zeros(n);
    var i := 0;
    while i < m
      invariant 0 <= i <= m
      invariant PartialSums(X, y, n, i, XtX, Xty)
    {
      XtX, Xty := AccumulateSample(X, y, n, i, XtX, Xty);
      i := i + 1;
    }
    PartialSumsComplete(X, y, n, XtX, Xty);
  }

  /** The body of the outer assembly loop: sample i is added to every entry
      of XᵀX and Xᵀy. */
  method AccumulateSample(X: Matrix, y: Vector, n: nat, i: nat, XtX: Matrix, Xty: Vector)
    returns (XtX': Matrix, Xty': Vector)
    requires HasWidth(X, n) && |y| == |X| && i < |X|
    requires PartialSums(X, y, n, i, XtX, Xty)
    ensures PartialSums(X, y, n, i + 1, XtX', Xty')
  {
    XtX', Xty' := XtX, Xty;
    var j := 0;
    while j < n
      invariant 0 <= j <= n
      invariant |XtX'| == n && HasWidth(XtX', n) && |Xty'| == n
      invariant forall a, b :: 0 <= a < j && 0 <= b < n ==> XtX'[a][b] == GramEntry(X, n, a, b, i + 1)
      invariant forall a, b :: j <= a < n && 0 <= b < n ==> XtX'[a][b] == GramEntry(X, n, a, b, i)
      invariant forall a :: 0 <= a < j ==> Xty'[a] == MomentEntry(X, y, n, a, i + 1)
      invariant forall a :: j <= a < n ==> Xty'[a] == MomentEntry(X, y, n, a, i)
    {
      Xty' := Xty'[j := Xty'[j] + X[i][j] * y[i]];
      var row := AccumulateGramRow(XtX'[j], X[i], j);
      XtX' := XtX'[j := row];
      j := j + 1;
    }
  }

  /** Once every row is summed, the accumulators are XᵀX and Xᵀy. */
  lemma PartialSumsComplete(X: Matrix, y: Vector, n: nat, XtX: Matrix, Xty: Vector)
    requires HasWidth(X, n) && |y| == |X|
    requires PartialSums(X, y, n, |X|, XtX, Xty)
    ensures XtX == Gram(X, n) && Xty == Moment(X, y, n)
  {
    forall a | 0 <= a < n ensures XtX[a] == Gram(X, n)[a] {
      assert forall b :: 0 <= b < n ==> XtX[a][b] == Gram(X, n)[a][b];
    }
    assert forall a :: 0 <= a < n ==> Xty[a] == Moment(X, y, n)[a];
  }

  /** The Gram matrix assembled by NormalEquations is symmetric. */
  lemma GramMatrixSymmetric(X: Matrix, n: nat)
    requires HasWidth(X, n)
    ensures forall j, k :: 0 <= j < n && 0 <= k < n ==> Gram(X, n)[j][k] == Gram(X, n)[k][j]
  {
    forall j, k | 0 <= j < n && 0 <= k < n ensures Gram(X, n)[j][k] == Gram(X, n)[k][j] {
      GramSymmetric(X, n, j, k, |X|);
    }
  }

  /** The bias corner of the assembled system: XᵀX[0][0] is the number of
      rows and Xᵀy[0] the sum of the targets. */
  lemma GramMatrixBias(X: Matrix, y: Vector, n: nat)
    requires HasWidth(X, n) && 0 < n && |y| == |X|
    requires forall r :: 0 <= r < |X| ==> X[r][0] == 1.0
    ensures Gram(X, n)[0][0] == |X| as real && Moment(X, y, n)[0] == Sum(y, |y|)
  {
    GramBias(X, y, n, |X|);
  }

  /** The augmented system [G | b]. */
  ghost function Augment(G: Matrix, b: Vector): (M: Matrix)
    requires |b| == |G| && HasWidth(G, |G|)
    ensures |M| == |G| && IsAugmented(M)
  {
    seq(|G|, i requires 0 <= i < |G| => G[i] + [b[i]])
  }

  /** w solves the augmented system [G | b] exactly when G·w = b. */
  lemma AugmentSolves(G: Matrix, b: Vector, w: Vector)
    requires |b| == |G| && HasWidth(G, |G|) && |w| == |G|
    ensures Solves(Augment(G, b), w) <==> forall j :: 0 <= j < |G| ==> DotRange(G[j], w, 0, |G|) == b[j]
  {
    var M := Augment(G, b);
    forall j | 0 <= j < |G| ensures DotRange(M[j], w, 0, |G|) == DotRange(G[j], w, 0, |G|) && M[j][|G|] == b[j] {
      DotRangeAgree(M[j], G[j], w, w, 0, |G|);
    }
  }

  /** Copies XᵀX and Xᵀy side by side into a fresh n×(n+1) array of rows. */
  method AugmentedSystem(XtX: Matrix, Xty: Vector) returns (A: array<seq<real>>)
    requires |Xty| == |XtX| && HasWidth(XtX, |XtX|)
    ensures fresh(A) && A[..] == Augment(XtX, Xty)
  {
    var n := |XtX|;
    A := new seq<real>[n](_ => Zeros(n + 1));
    for i := 0 to n
      invariant forall r :: 0 <= r < i ==> A[r] == XtX[r] + [Xty[r]]
    {
      A[i] := XtX[i] + [Xty[i]];
    }
  }

  /** The least-squares fit: assemble the normal equations of X and y,
      eliminate, back-substitute. The result solves the normal equations,
      and no other vector does. */
  method Fit(X: Matrix, y: Vector) returns (w: Vector)
    requires |X| > 0 && |y| == |X| && HasWidth(X, |X[0]|)
    requires NonzeroPivots(Augment(Gram(X, |X[0]|), Moment(X, y, |X[0]|)), 0)
    ensures Solves(Augment(Gram(X, |X[0]|), Moment(X, y, |X[0]|)), w)
    ensures forall v :: Solves(Augment(Gram(X, |X[0]|), Moment(X, y, |X[0]|)), v) ==> v == w
  {
    var XtX, Xty := NormalEquations(X, y);
    var A := AugmentedSystem(XtX, Xty);
    ghost var A0 := A[..];
    Eliminate(A);
    EliminationProperties(A0, 0);
    w := BackSubstitute(A);
    forall v | Solves(A0, v) ensures v == w {
      SolutionUnique(A0, v, w);
    }
  }

  /** The normal equations of the completed records, as an augmented system. */
  ghost function NormalSystem(ps: seq<Process>): (M: Matrix)
    ensures |M| == NumFeatures && IsAugmented(M)
  {
    var X := TrainingRows(ps);
    Augment(Gram(X, NumFeatures), Moment(X, TrainingTargets(ps), NumFeatures))
  }

  /** The system Fit solves on the training set of ps is NormalSystem(ps). */
  lemma FitSystemIsNormalSystem(ps: seq<Process>, X: Matrix, y: Vector)
    requires X == TrainingRows(ps) && y == TrainingTargets(ps) && |X| > 0
    requires HasWidth(X, NumFeatures)
    ensures |X[0]| == NumFeatures && |y| == |X| && HasWidth(X, |X[0]|)
    ensures Augment(Gram(X, |X[0]|), Moment(X, y, |X[0]|)) == NormalSystem(ps)
  {
    assert |X[0]| == NumFeatures;
  }

  /** If the completed records' durations are exactly a linear function of
      their features with weights wStar, and elimination meets no zero
      pivot, then any solution of the normal equations is wStar, and it
      reproduces every training duration. */
  lemma ExactDataRecovered(ps: seq<Process>, wStar: Vector, w: Vector)
    requires |wStar| == NumFeatures
    requires forall p :: p in Completed(ps) ==> Forecast(wStar, p) == Duration(p)
    requires NonzeroPivots(NormalSystem(ps), 0)
    requires Solves(NormalSystem(ps), w)
    ensures w == wStar
    ensures forall p :: p in Completed(ps) ==> Forecast(w, p) == Duration(p)
  {
    var X, y := TrainingRows(ps), TrainingTargets(ps);
    var c := Completed(ps);
    var n := NumFeatures;
    var G, b := Gram(X, n), Moment(X, y, n);
    forall r | 0 <= r < |X| ensures DotRange(X[r], wStar, 0, n) == y[r] {
      assert c[r] in c;
    }
    forall j | 0 <= j < n ensures DotRange(G[j], wStar, 0, n) == b[j] {
      ExactFitSolvesNormalEquations(X, y, wStar, n, j, |X|);
    }
    AugmentSolves(G, b, wStar);
    SolutionUnique(NormalSystem(ps), w, wStar);
  }
}
