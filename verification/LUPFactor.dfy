/** What a finished factorization is: PA = LU with a bijective permutation, the
    inversion parity of the permutation, and the determinant of A. */
module LUPFactor {
  import opened Sums
  import opened Matrices
  import opened Permutations
  import opened Determinants
  import opened LUP

  function LowerPart(lu: Matrix): (l: Matrix)
    ensures IsMatrix(l, |lu|, |lu|)
  {
    seq(|lu|, i requires 0 <= i < |lu| => seq(|lu|, t => Lower(lu, i, t)))
  }

  function UpperPart(lu: Matrix): (u: Matrix)
    ensures IsMatrix(u, |lu|, |lu|)
  {
    seq(|lu|, t requires 0 <= t < |lu| => seq(|lu|, j => Upper(lu, t, j)))
  }

  function Permuted<T>(s: seq<T>, perm: seq<int>): (r: seq<T>)
    requires |perm| == |s| && forall i :: 0 <= i < |perm| ==> 0 <= perm[i] < |s|
    ensures |r| == |s|
  {
    seq(|s|, i requires 0 <= i < |s| => s[perm[i]])
  }

  lemma LowerEntry(lu: Matrix, i: nat, t: nat)
    requires i < |lu| && t < |lu|
    ensures Comp(LowerPart(lu)[i], t) == Lower(lu, i, t)
  {
  }

  lemma UpperEntry(lu: Matrix, t: nat, j: nat)
    requires t < |lu| && j < |lu|
    ensures Comp(UpperPart(lu)[t], j) == Upper(lu, t, j)
    ensures Comp(Column(UpperPart(lu), j), t) == Upper(lu, t, j)
  {
    assert Column(UpperPart(lu), j)[t] == Entry(UpperPart(lu), t, j);
  }

  lemma LUTerm(lu: Matrix, i: nat, j: nat, t: nat)
    requires i < |lu| && j < |lu| && t < |lu|
    ensures DotTerms(LowerPart(lu)[i], Column(UpperPart(lu), j))(t) == LUTerms(lu, i, j)(t)
  {
    LowerEntry(lu, i, t);
    UpperEntry(lu, t, j);
    var l, u := LowerPart(lu)[i], Column(UpperPart(lu), j);
    calc {
      DotTerms(l, u)(t);
      Comp(l, t) * Comp(u, t);
      Lower(lu, i, t) * Upper(lu, t, j);
    }
  }

  lemma LUEntry(lu: Matrix, i: nat, j: nat)
    requires i < |lu| && j < |lu|
    ensures Dot(LowerPart(lu)[i], Column(UpperPart(lu), j)) == Sum(LUTerms(lu, i, j), |lu|)
  {
    var l, u := LowerPart(lu)[i], Column(UpperPart(lu), j);
    forall t | 0 <= t < |lu| ensures DotTerms(l, u)(t) == LUTerms(lu, i, j)(t) {
      LUTerm(lu, i, j, t);
    }
    SumCong(DotTerms(l, u), LUTerms(lu, i, j), |lu|);
  }

  /** PA = LU. */
  lemma FactorIsLUP(a: Matrix, eps: real)
    requires IsSquare(a) && 0.0 < eps && Factor(a, eps).valid
    ensures var f := Factor(a, eps);
            && IsPermutation(f.perm)
            && DiagonalAtLeast(f.lu, |a|, eps)
            && Permuted(a, f.perm) == MatMul(LowerPart(f.lu), UpperPart(f.lu), |a|)
  {
    var f := Factor(a, eps);
    IterateRepresents(a, eps, |a|);
    var pa, product := Permuted(a, f.perm), MatMul(LowerPart(f.lu), UpperPart(f.lu), |a|);
    forall i | 0 <= i < |a| ensures pa[i] == product[i] {
      forall j | 0 <= j < |a| ensures pa[i][j] == product[i][j] {
        LUEntry(f.lu, i, j);
        assert Entry(a, f.perm[i], j) == Represented(f.lu, |a|, i, j);
      }
    }
  }

  /** The same, entry by entry: only the terms up to min(i, j) contribute. */
  lemma FactorEntries(a: Matrix, eps: real, i: nat, j: nat)
    requires IsSquare(a) && 0.0 < eps && Factor(a, eps).valid && i < |a| && j < |a|
    ensures var f := Factor(a, eps);
            && 0 <= f.perm[i] < |a|
            && a[f.perm[i]][j] == Sum(LUTerms(f.lu, i, j), if i <= j then i + 1 else j + 1)
  {
    var f := Factor(a, eps);
    IterateRepresents(a, eps, |a|);
    assert Entry(a, f.perm[i], j) == Represented(f.lu, |a|, i, j);
    SumTruncate(LUTerms(f.lu, i, j), if i <= j then i + 1 else j + 1, |a|);
  }

  // ----- parity

  lemma FindPivotKeepsParity(f: Factorization, k: nat, eps: real)
    requires k < |f.lu| == |f.perm| && IsPermutation(f.perm) && f.parity == InversionSign(f.perm)
    ensures IsPermutation(FindPivot(f, k, eps).perm)
    ensures FindPivot(f, k, eps).parity == InversionSign(FindPivot(f, k, eps).perm)
  {
    var r := PivotRow(f.lu, k, |f.lu|);
    SwapPermutation(f.perm, r, k);
    if r != k {
      SwapFlipsParity(f.perm, k, r);
      SwapSymmetric(f.perm, k, r);
    }
  }

  lemma AdvanceKeepsParity(f: Factorization, k: nat, eps: real)
    requires k < |f.lu| == |f.perm| && IsPermutation(f.perm) && f.parity == InversionSign(f.perm)
    ensures IsPermutation(Advance(f, k, eps).perm)
    ensures Advance(f, k, eps).parity == InversionSign(Advance(f, k, eps).perm)
  {
    hide FindPivot, InversionSign, IsPermutation;
    FindPivotKeepsParity(f, k, eps);
  }

  lemma IdentityParity(n: nat)
    ensures IsPermutation(IdentityPermutation(n)) && InversionSign(IdentityPermutation(n)) == 1.0
  {
    IdentityIsPermutation(n);
    IncreasingHasNoInversions(IdentityPermutation(n));
  }

  /** Valid or not, the tracked parity is that of the permutation's inversions,
      and the permutation is a bijection. */
  lemma {:induction false} ParityOfInversions(a: Matrix, eps: real, k: nat)
    requires k <= |a|
    ensures IsPermutation(Iterate(a, eps, k).perm)
    ensures Iterate(a, eps, k).parity == InversionSign(Iterate(a, eps, k).perm)
  {
    hide Advance, InversionSign, IsPermutation;
    if k == 0 {
      IdentityParity(|a|);
    } else {
      ParityOfInversions(a, eps, k - 1);
      AdvanceKeepsParity(Iterate(a, eps, k - 1), k - 1, eps);
    }
  }

  lemma SwapSymmetric<T>(s: seq<T>, i: nat, j: nat)
    requires i < |s| && j < |s|
    ensures Swap(s, i, j) == Swap(s, j, i)
  {
  }

  // ----- determinant

  function DiagonalProduct(lu: Matrix, k: nat): real {
    if k == 0 then 1.0 else DiagonalProduct(lu, k - 1) * Entry(lu, k - 1, k - 1)
  }

  lemma {:induction false} DiagonalProductCong(a: Matrix, b: Matrix, k: nat)
    requires forall t :: 0 <= t < k ==> Entry(a, t, t) == Entry(b, t, t)
    ensures DiagonalProduct(a, k) == DiagonalProduct(b, k)
  {
    if k == 0 {
    } else {
      DiagonalProductCong(a, b, k - 1);
    }
  }

  /** The determinant of the original matrix, as k iterations leave it: the
      parity, the pivots so far, and the determinant of the unfinished block. */
  function Remaining(f: Factorization, k: nat): real
    requires k <= |f.lu|
  {
    f.parity * DiagonalProduct(f.lu, k) * Det(f.lu[k..], k)
  }

  lemma FindPivotKeepsRemaining(f: Factorization, k: nat, eps: real)
    requires k < |f.lu| == |f.perm|
    ensures Remaining(FindPivot(f, k, eps), k) == Remaining(f, k)
  {
    hide Det, DiagonalProduct;
    var r := PivotRow(f.lu, k, |f.lu|);
    if r != k {
      var lu' := Swap(f.lu, r, k);
      DiagonalProductCong(f.lu, lu', k);
      DetSwap(f.lu[k..], k, 0, r - k);
      assert lu'[k..] == Swap(f.lu[k..], 0, r - k);
      var p, d := DiagonalProduct(f.lu, k), Det(f.lu[k..], k);
      assert (-f.parity) * p * (-d) == f.parity * p * d;
    }
  }

  function EliminationFactor(m: Matrix, k: nat): int -> real
    requires Entry(m, k, k) != 0.0
  {
    r => -(Entry(m, k + r, k) * (1.0 / Entry(m, k, k)))
  }

  lemma TimesReciprocal(e: real, d: real)
    requires d != 0.0
    ensures e + -(e * (1.0 / d)) * d == 0.0
  {
    var q := 1.0 / d;
    assert q * d == 1.0;
    assert (e * q) * d == e * (q * d);
  }

  /** The factor clears the pivot's column. */
  lemma FactorClears(m: Matrix, k: nat, r: nat)
    requires IsSquare(m) && k + r < |m| && Entry(m, k, k) != 0.0
    ensures Comp(m[k..][r], k) + EliminationFactor(m, k)(r) * Comp(m[k..][0], k) == 0.0
  {
    TimesReciprocal(Entry(m, k + r, k), Entry(m, k, k));
  }

  lemma RegroupProduct(x: real, e: real, u: real, q: real)
    ensures x - e * (u * q) == x + -(e * q) * u
  {
    assert e * (u * q) == (e * q) * u;
  }

  /** An eliminated row is the row plus a multiple of the pivot's. */
  lemma EliminatedRow(m: Matrix, k: nat, r: nat, j: nat)
    requires IsSquare(m) && k + 1 + r < |m| && k < j < |m| && Entry(m, k, k) != 0.0
    ensures Comp(Eliminate(m, k)[k + 1..][r], j)
         == Comp(m[k..][r + 1], j) + EliminationFactor(m, k)(r + 1) * Comp(m[k..][0], j)
  {
    var i := k + 1 + r;
    assert Eliminate(m, k)[k + 1..][r] == Eliminate(m, k)[i];
    assert m[k..][r + 1] == m[i];
    RegroupProduct(Entry(m, i, j), Entry(m, i, k), Entry(m, k, j), 1.0 / Entry(m, k, k));
  }

  lemma EliminatedBlock(m: Matrix, k: nat)
    requires IsSquare(m) && k < |m| && Entry(m, k, k) != 0.0
    ensures Det(m[k..], k) == Entry(m, k, k) * Det(Eliminate(m, k)[k + 1..], k + 1)
  {
    hide Det, Eliminate, EliminationFactor;
    var rows, rest, factor := m[k..], Eliminate(m, k)[k + 1..], EliminationFactor(m, k);
    forall r | 0 < r < |rows| ensures Comp(rows[r], k) + factor(r) * Comp(rows[0], k) == 0.0 {
      FactorClears(m, k, r);
    }
    forall r, j | 0 <= r < |rest| && k < j < k + |rows|
      ensures Comp(rest[r], j) == Comp(rows[r + 1], j) + factor(r + 1) * Comp(rows[0], j)
    {
      EliminatedRow(m, k, r, j);
    }
    DetSchur(rows, rest, k, factor);
  }

  lemma EliminateKeepsRemaining(f: Factorization, k: nat)
    requires IsSquare(f.lu) && k < |f.lu| && Entry(f.lu, k, k) != 0.0
    ensures Remaining(f.(lu := Eliminate(f.lu, k)), k + 1) == Remaining(f, k)
  {
    var lu' := Eliminate(f.lu, k);
    EliminateKeepsDiagonal(f.lu, k);
    DiagonalProductCong(f.lu, lu', k);
    EliminatedBlock(f.lu, k);
    var p, d, q := DiagonalProduct(f.lu, k), Entry(f.lu, k, k), Det(lu'[k + 1..], k + 1);
    assert f.parity * (p * d) * q == f.parity * p * (d * q);
  }

  lemma AdvanceKeepsRemaining(f: Factorization, k: nat, eps: real)
    requires IsSquare(f.lu) && k < |f.lu| == |f.perm| && f.valid && Advance(f, k, eps).valid
    ensures IsSquare(Advance(f, k, eps).lu)
    ensures Remaining(Advance(f, k, eps), k + 1) == Remaining(f, k)
  {
    FindPivotKeepsRemaining(f, k, eps);
    EliminateKeepsRemaining(FindPivot(f, k, eps), k);
  }

  lemma RemainingAtStart(a: Matrix, eps: real)
    ensures Remaining(Iterate(a, eps, 0), 0) == Determinant(a)
  {
    assert a[0..] == a;
  }

  lemma {:induction false} IterateKeepsRemaining(a: Matrix, eps: real, k: nat)
    requires IsSquare(a) && k <= |a| && Iterate(a, eps, k).valid
    ensures IsSquare(Iterate(a, eps, k).lu) && Remaining(Iterate(a, eps, k), k) == Determinant(a)
  {
    hide Remaining, Advance, Determinant;
    if k == 0 {
      RemainingAtStart(a, eps);
    } else {
      IterateKeepsRemaining(a, eps, k - 1);
      AdvanceKeepsRemaining(Iterate(a, eps, k - 1), k - 1, eps);
    }
  }

  lemma RemainingAtEnd(f: Factorization, n: nat)
    requires n == |f.lu|
    ensures Remaining(f, n) == f.parity * DiagonalProduct(f.lu, n)
  {
    assert f.lu[n..] == [];
  }

  /** A valid factorization gives the determinant. */
  lemma DeterminantFromFactor(a: Matrix, eps: real, f: Factorization)
    requires IsSquare(a) && f == Iterate(a, eps, |a|) && f.valid
    ensures Determinant(a) == f.parity * DiagonalProduct(f.lu, |a|)
  {
    hide Remaining, Determinant, Iterate;
    IterateKeepsRemaining(a, eps, |a|);
    RemainingAtEnd(f, |a|);
  }

  lemma FactorProductNonzero(a: Matrix, eps: real, f: Factorization)
    requires IsSquare(a) && 0.0 < eps && f == Iterate(a, eps, |a|) && f.valid
    ensures f.parity * DiagonalProduct(f.lu, |a|) != 0.0
  {
    IterateRepresents(a, eps, |a|);
    ParityOfInversions(a, eps, |a|);
    DiagonalProductNonzero(f.lu, |a|, eps);
  }

  /** No matrix of determinant zero is ever reported valid. */
  lemma ValidIsNonsingular(a: Matrix, eps: real)
    requires IsSquare(a) && 0.0 < eps && Factor(a, eps).valid
    ensures Determinant(a) != 0.0
  {
    hide Determinant, Iterate, DiagonalProduct;
    var f := Factor(a, eps);
    DeterminantFromFactor(a, eps, f);
    FactorProductNonzero(a, eps, f);
  }

  lemma {:induction false} DiagonalProductNonzero(lu: Matrix, k: nat, eps: real)
    requires 0.0 < eps && DiagonalAtLeast(lu, k, eps)
    ensures DiagonalProduct(lu, k) != 0.0
  {
    if k == 0 {
    } else {
      DiagonalProductNonzero(lu, k - 1, eps);
    }
  }
}
