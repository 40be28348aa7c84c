/** The inverse built one solved column at a time, and why it is two-sided. */
module LUPInverse {
  import opened Matrices
  import opened Permutations
  import opened LUP
  import opened LUPSolve

  /** Column j of the result is the solution for the j-th unit vector. */
  function InverseMatrix(lu: Matrix, perm: seq<int>): (x: Matrix)
    requires IsSquare(lu) && |lu| == |perm| && IsPermutation(perm) && NonzeroDiagonal(lu, |lu|)
    ensures IsMatrix(x, |lu|, |lu|)
  {
    seq(|lu|, i requires 0 <= i < |lu| =>
      seq(|lu|, j => Solution(lu, perm, UnitVector(|lu|, j))[i]))
  }

  /** The exact inverse a valid factorization of a gives. */
  function Inverse(a: Matrix, eps: real): (x: Matrix)
    requires IsSquare(a) && 0.0 < eps && Factor(a, eps).valid
    ensures IsMatrix(x, |a|, |a|)
  {
    FactorUsable(a, eps);
    InverseMatrix(Factor(a, eps).lu, Factor(a, eps).perm)
  }

  lemma InverseColumn(a: Matrix, eps: real, j: nat)
    requires IsSquare(a) && 0.0 < eps && Factor(a, eps).valid && j < |a|
    ensures MatVec(a, Column(Inverse(a, eps), j)) == UnitVector(|a|, j)
  {
    FactorUsable(a, eps);
    var f := Factor(a, eps);
    var x := Column(Inverse(a, eps), j);
    assert x == Solution(f.lu, f.perm, UnitVector(|a|, j));
    SolutionIffSolves(a, eps, UnitVector(|a|, j), x);
  }

  lemma EqualColumns(p: Matrix, q: Matrix, n: nat)
    requires IsMatrix(p, n, n) && IsMatrix(q, n, n)
    requires forall j :: 0 <= j < n ==> Column(p, j) == Column(q, j)
    ensures p == q
  {
    forall i | 0 <= i < n ensures p[i] == q[i] {
      forall j | 0 <= j < n ensures p[i][j] == q[i][j] {
        assert Column(p, j)[i] == Column(q, j)[i];
      }
    }
  }

  lemma IdentityColumn(n: nat, j: nat)
    requires j < n
    ensures Column(Identity(n), j) == UnitVector(n, j)
  {
  }

  /** A X = I. */
  lemma InverseRight(a: Matrix, eps: real)
    requires IsSquare(a) && 0.0 < eps && Factor(a, eps).valid
    ensures MatMul(a, Inverse(a, eps), |a|) == Identity(|a|)
  {
    var x := Inverse(a, eps);
    forall j | 0 <= j < |a| ensures Column(MatMul(a, x, |a|), j) == Column(Identity(|a|), j) {
      ColumnOfProduct(a, x, |a|, j);
      InverseColumn(a, eps, j);
      IdentityColumn(|a|, j);
    }
    EqualColumns(MatMul(a, x, |a|), Identity(|a|), |a|);
  }

  /** Only one vector has a given image. */
  lemma MatVecInjective(a: Matrix, eps: real, u: Vector, v: Vector)
    requires IsSquare(a) && 0.0 < eps && Factor(a, eps).valid && |u| == |v| == |a|
    requires MatVec(a, u) == MatVec(a, v)
    ensures u == v
  {
    SolutionIffSolves(a, eps, MatVec(a, v), u);
    SolutionIffSolves(a, eps, MatVec(a, v), v);
  }

  /** X A = I: both sides send each unit vector to a preimage of the same column. */
  lemma InverseLeft(a: Matrix, eps: real)
    requires IsSquare(a) && 0.0 < eps && Factor(a, eps).valid
    ensures MatMul(Inverse(a, eps), a, |a|) == Identity(|a|)
  {
    var n, x := |a|, Inverse(a, eps);
    InverseRight(a, eps);
    forall j | 0 <= j < n ensures Column(MatMul(x, a, n), j) == Column(Identity(n), j) {
      var aj := Column(a, j);
      ColumnOfProduct(x, a, n, j);
      MatVecAssoc(a, x, aj);
      MatVecIdentity(aj);
      MatVecUnit(a, n, j);
      MatVecInjective(a, eps, MatVec(x, aj), UnitVector(n, j));
      IdentityColumn(n, j);
    }
    EqualColumns(MatMul(x, a, n), Identity(n), n);
  }
}
