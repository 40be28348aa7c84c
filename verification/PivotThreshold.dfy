/** Which matrices the pivot test of viskores/Matrix.h accepts. With no threshold the
    factorization succeeds on exactly the regular ones; with one, on those whose
    threshold-free pivots all reach it. */
module PivotThreshold {
  import opened Arithmetic
  import opened Matrices
  import opened Determinants
  import opened LUP
  import opened LUPFactor
  import opened Singularity

  // ----- without the threshold: partial pivoting never fails on a regular matrix

  /** A valid iteration keeps the pivots so far and adds a nonzero one. */
  lemma AdvanceKeepsPivots(f: Factorization, k: nat, eps: real)
    requires IsSquare(f.lu) && k < |f.lu| == |f.perm| && f.valid && Advance(f, k, eps).valid
    ensures var g := Advance(f, k, eps);
            && IsSquare(g.lu)
            && (forall t :: 0 <= t < k ==> Entry(g.lu, t, t) == Entry(f.lu, t, t))
            && Entry(g.lu, k, k) == Entry(f.lu, PivotRow(f.lu, k, |f.lu|), k) != 0.0
            && eps <= Abs(Entry(g.lu, k, k))
  {
    EliminateKeepsDiagonal(FindPivot(f, k, eps).lu, k);
  }

  lemma {:induction false} PivotsNonzero(a: Matrix, eps: real, k: nat)
    requires IsSquare(a) && k <= |a| && Iterate(a, eps, k).valid
    ensures IsSquare(Iterate(a, eps, k).lu) && NonzeroDiagonal(Iterate(a, eps, k).lu, k)
  {
    hide Advance;
    if k == 0 {
    } else {
      PivotsNonzero(a, eps, k - 1);
      AdvanceKeepsPivots(Iterate(a, eps, k - 1), k - 1, eps);
    }
  }

  lemma {:induction false} ProductNonzero(lu: Matrix, k: nat)
    requires NonzeroDiagonal(lu, k)
    ensures DiagonalProduct(lu, k) != 0.0
  {
    if k == 0 {
    } else {
      ProductNonzero(lu, k - 1);
    }
  }

  /** The first iteration to fail without a threshold finds a column of zeros in the
      unfinished block. */
  lemma FailureMeansZeroColumn(f: Factorization, k: nat)
    requires k < |f.lu| == |f.perm| && f.valid && !Advance(f, k, 0.0).valid
    ensures Remaining(f, k) == 0.0
  {
    var r := PivotRow(f.lu, k, |f.lu|);
    assert Entry(FindPivot(f, k, 0.0).lu, k, k) == 0.0;
    forall i | 0 <= i < |f.lu[k..]| ensures Comp(f.lu[k..][i], k) == 0.0 {
      assert Abs(Entry(f.lu, k + i, k)) <= Abs(Entry(f.lu, r, k));
    }
    ZeroColumnDet(f.lu[k..], k);
  }

  lemma {:induction false} FailureMeansSingular(a: Matrix, k: nat)
    requires IsSquare(a) && k <= |a| && !Iterate(a, 0.0, k).valid
    ensures Determinant(a) == 0.0
  {
    hide Advance, Determinant, Remaining;
    var f := Iterate(a, 0.0, k - 1);
    if f.valid {
      FailureMeansZeroColumn(f, k - 1);
      IterateKeepsRemaining(a, 0.0, k - 1);
    } else {
      FailureMeansSingular(a, k - 1);
    }
  }

  /** Without a threshold, partial pivoting factors exactly the regular matrices. */
  lemma ThresholdFreeIffRegular(a: Matrix)
    requires IsSquare(a)
    ensures Factor(a, 0.0).valid <==> !Singular(a)
  {
    hide Determinant, Singular, DiagonalProduct, Iterate;
    DeterminantZeroIffSingular(a);
    var f := Factor(a, 0.0);
    if f.valid {
      PivotsNonzero(a, 0.0, |a|);
      ProductNonzero(f.lu, |a|);
      ParityOfInversions(a, 0.0, |a|);
      DeterminantFromFactor(a, 0.0, f);
    } else {
      FailureMeansSingular(a, |a|);
    }
  }

  // ----- with the threshold

  /** A valid run never noticed the threshold. */
  lemma {:induction false} ThresholdUnnoticed(a: Matrix, eps: real, k: nat)
    requires IsSquare(a) && k <= |a| && 0.0 < eps && Iterate(a, eps, k).valid
    ensures Iterate(a, 0.0, k) == Iterate(a, eps, k)
  {
    if k == 0 {
    } else {
      ThresholdUnnoticed(a, eps, k - 1);
    }
  }

  lemma LargePivotPasses(f: Factorization, k: nat, eps: real)
    requires IsSquare(f.lu) && k < |f.lu| == |f.perm| && f.valid && 0.0 < eps && Advance(f, k, 0.0).valid
    requires eps <= Abs(Entry(Advance(f, k, 0.0).lu, k, k))
    ensures Advance(f, k, eps) == Advance(f, k, 0.0)
  {
    hide Eliminate;
    AdvanceKeepsPivots(f, k, 0.0);
  }

  /** Nor does a threshold-free run with pivots that large. */
  lemma {:induction false} LargePivotsPass(a: Matrix, eps: real, k: nat)
    requires IsSquare(a) && k <= |a| && 0.0 < eps && Iterate(a, 0.0, k).valid
    requires DiagonalAtLeast(Iterate(a, 0.0, k).lu, k, eps)
    ensures Iterate(a, eps, k) == Iterate(a, 0.0, k)
  {
    hide Advance;
    if k == 0 {
    } else {
      var f := Iterate(a, 0.0, k - 1);
      IterateSquare(a, 0.0, k - 1);
      AdvanceKeepsPivots(f, k - 1, 0.0);
      LargePivotsPass(a, eps, k - 1);
      LargePivotPasses(f, k - 1, eps);
    }
  }

  /** Every pivot that partial pivoting finds without a threshold is at least eps. */
  predicate PivotsReach(a: Matrix, eps: real) {
    DiagonalAtLeast(Factor(a, 0.0).lu, |a|, eps)
  }

  /** The test accepts a matrix exactly when it is regular and every threshold-free
      pivot reaches the threshold; it then returns the threshold-free factorization. */
  lemma AcceptedIff(a: Matrix, eps: real)
    requires IsSquare(a) && 0.0 < eps
    ensures Factor(a, eps).valid <==> Factor(a, 0.0).valid && PivotsReach(a, eps)
    ensures Factor(a, eps).valid <==> !Singular(a) && PivotsReach(a, eps)
    ensures Factor(a, eps).valid ==> Factor(a, eps) == Factor(a, 0.0)
  {
    hide Iterate, Singular, DiagonalAtLeast;
    ThresholdFreeIffRegular(a);
    if Factor(a, eps).valid {
      ThresholdUnnoticed(a, eps, |a|);
      IterateRepresents(a, eps, |a|);
    }
    if Factor(a, 0.0).valid && PivotsReach(a, eps) {
      LargePivotsPass(a, eps, |a|);
    }
  }
}
