/** The routines of viskores/Matrix.h as they run: loops that update one matrix
    holding both L and U, the permutation vector, and the parity in place. Each is
    proved to compute the specification function of the same name. */
module MatrixMethods {
  import opened Arithmetic
  import opened Sums
  import opened Matrices
  import opened Permutations
  import opened Determinants
  import opened LUP
  import opened LUPFactor
  import opened LUPSolve
  import opened LUPInverse
  import opened Singularity
  import opened PivotThreshold

  /** The value an array currently holds. */
  ghost function Contents(a: array2<real>): (m: Matrix)
    reads a
    ensures IsMatrix(m, a.Length0, a.Length1)
    ensures forall i, j :: 0 <= i < a.Length0 && 0 <= j < a.Length1 ==> m[i][j] == a[i, j]
  {
    seq(a.Length0, i requires 0 <= i < a.Length0 reads a =>
      seq(a.Length1, j requires 0 <= j < a.Length1 reads a => a[i, j]))
  }

  lemma EqualEntries(p: Matrix, q: Matrix, rows: nat, cols: nat)
    requires IsMatrix(p, rows, cols) && IsMatrix(q, rows, cols)
    requires forall i, j :: 0 <= i < rows && 0 <= j < cols ==> p[i][j] == q[i][j]
    ensures p == q
  {
    forall i | 0 <= i < rows ensures p[i] == q[i] { }
  }

  method MatrixGetRow(matrix: array2<real>, row: nat) returns (values: Vector)
    requires row < matrix.Length0
    ensures values == Contents(matrix)[row]
  {
    values := seq(matrix.Length1, j requires 0 <= j < matrix.Length1 reads matrix => matrix[row, j]);
  }

  method MatrixSetRow(matrix: array2<real>, row: nat, values: Vector)
    requires row < matrix.Length0 && |values| == matrix.Length1
    modifies matrix
    ensures Contents(matrix) == old(Contents(matrix))[row := values]
  {
    ghost var before := Contents(matrix);
    forall j | 0 <= j < matrix.Length1 { matrix[row, j] := values[j]; }
    EqualEntries(Contents(matrix), before[row := values], matrix.Length0, matrix.Length1);
  }

  method SwapRows(matrix: array2<real>, maxRowIndex: nat, topCornerIndex: nat)
    requires maxRowIndex < matrix.Length0 && topCornerIndex < matrix.Length0
    modifies matrix
    ensures Contents(matrix) == Swap(old(Contents(matrix)), maxRowIndex, topCornerIndex)
  {
    var maxRow := MatrixGetRow(matrix, maxRowIndex);
    var topRow := MatrixGetRow(matrix, topCornerIndex);
    MatrixSetRow(matrix, maxRowIndex, topRow);
    MatrixSetRow(matrix, topCornerIndex, maxRow);
  }

  method MatrixLUPFactorFindPivot(matrix: array2<real>, permutation: array<int>, topCornerIndex: nat,
                                  inversionParity: real, eps: real)
    returns (parity: real, valid: bool)
    requires topCornerIndex < matrix.Length0 == matrix.Length1 == permutation.Length
    modifies matrix, permutation
    ensures Factorization(Contents(matrix), permutation[..], parity, valid)
         == FindPivot(Factorization(old(Contents(matrix)), old(permutation[..]), inversionParity, true), topCornerIndex, eps)
  {
    hide Contents;
    var maxRowIndex := topCornerIndex;
    var maxValue := Abs(matrix[maxRowIndex, topCornerIndex]);
    for rowIndex := topCornerIndex + 1 to matrix.Length0
      invariant maxRowIndex == PivotRow(Contents(matrix), topCornerIndex, rowIndex)
      invariant maxValue == Abs(Entry(Contents(matrix), maxRowIndex, topCornerIndex))
    {
      var compareValue := Abs(matrix[rowIndex, topCornerIndex]);
      assert compareValue == Abs(Entry(Contents(matrix), rowIndex, topCornerIndex));
      if maxValue < compareValue {
        maxValue, maxRowIndex := compareValue, rowIndex;
      }
    }
    parity, valid := inversionParity, true;
    if maxValue < eps {
      valid := false;
      return;
    }
    if maxRowIndex != topCornerIndex {
      SwapRows(matrix, maxRowIndex, topCornerIndex);
      permutation[maxRowIndex], permutation[topCornerIndex] := permutation[topCornerIndex], permutation[maxRowIndex];
      parity := -inversionParity;
    }
  }

  method MatrixLUPFactorFindUpperTriangleElements(matrix: array2<real>, topCornerIndex: nat) returns (valid: bool)
    requires topCornerIndex < matrix.Length0 == matrix.Length1
    modifies matrix
    ensures valid == (Entry(old(Contents(matrix)), topCornerIndex, topCornerIndex) != 0.0)
    ensures Contents(matrix) == if valid then Eliminate(old(Contents(matrix)), topCornerIndex) else old(Contents(matrix))
  {
    ghost var m, n, k := Contents(matrix), matrix.Length0, topCornerIndex;
    valid := true;
    if matrix[topCornerIndex, topCornerIndex] == 0.0 {
      valid := false;
      return;
    }
    var rAdiag := 1.0 / matrix[topCornerIndex, topCornerIndex];
    for colIndex := topCornerIndex + 1 to matrix.Length0
      invariant forall i, j :: 0 <= i < n && 0 <= j < n ==>
                  matrix[i, j] == if i == k && j < colIndex then EliminatedEntry(m, k, i, j) else m[i][j]
    {
      matrix[topCornerIndex, colIndex] := matrix[topCornerIndex, colIndex] * rAdiag;
    }
    for rowIndex := topCornerIndex + 1 to matrix.Length0
      invariant forall i, j :: 0 <= i < n && 0 <= j < n ==>
                  matrix[i, j] == if i < rowIndex then EliminatedEntry(m, k, i, j) else m[i][j]
    {
      for colIndex := topCornerIndex + 1 to matrix.Length0
        invariant forall i, j :: 0 <= i < n && 0 <= j < n ==>
                    matrix[i, j] ==
                      if i < rowIndex || (i == rowIndex && j < colIndex) then EliminatedEntry(m, k, i, j) else m[i][j]
      {
        matrix[rowIndex, colIndex] :=
          matrix[rowIndex, colIndex] - matrix[rowIndex, topCornerIndex] * matrix[topCornerIndex, colIndex];
      }
    }
    EqualEntries(Contents(matrix), Eliminate(m, k), n, n);
  }

  /** Factors A in place; the state left behind is a function of the original A,
      whether the factorization succeeds or stops at a small pivot. */
  method MatrixLUPFactor(matrix: array2<real>, permutation: array<int>, eps: real)
    returns (inversionParity: real, valid: bool)
    requires matrix.Length0 == matrix.Length1 == permutation.Length
    modifies matrix, permutation
    ensures Factorization(Contents(matrix), permutation[..], inversionParity, valid) == Factor(old(Contents(matrix)), eps)
  {
    hide FindPivot, Eliminate;
    ghost var a, n := Contents(matrix), matrix.Length0;
    for index := 0 to permutation.Length
      invariant Contents(matrix) == a
      invariant forall i :: 0 <= i < index ==> permutation[i] == i
    {
      permutation[index] := index;
    }
    assert permutation[..] == IdentityPermutation(n);
    inversionParity, valid := 1.0, true;
    for rowIndex := 0 to matrix.Length0
      invariant valid
      invariant Factorization(Contents(matrix), permutation[..], inversionParity, valid) == Iterate(a, eps, rowIndex)
    {
      inversionParity, valid := MatrixLUPFactorFindPivot(matrix, permutation, rowIndex, inversionParity, eps);
      if !valid {
        StoppedAt(a, eps, rowIndex + 1, n);
        break;
      }
      valid := MatrixLUPFactorFindUpperTriangleElements(matrix, rowIndex);
      if !valid {
        StoppedAt(a, eps, rowIndex + 1, n);
        break;
      }
    }
  }

  // ----- triangular solves

  lemma {:induction false} ForwardPrefix(lu: Matrix, b: Vector, i: nat, k: nat)
    requires i <= k <= |lu| == |b| && NonzeroDiagonal(lu, k)
    ensures Forward(lu, b, k)[..i] == Forward(lu, b, i)
  {
    if i == k {
    } else {
      ForwardPrefix(lu, b, i, k - 1);
      assert Forward(lu, b, k)[..i] == Forward(lu, b, k - 1)[..i];
    }
  }

  /** Component r of y: exact while the diagonal is nonzero, NaN from the first zero on. */
  function LowerComponent(lu: Matrix, pb: Vector, r: nat): Scalar
    requires r < |lu| == |pb|
  {
    if NonzeroDiagonal(lu, r + 1) then Fin(Forward(lu, pb, r + 1)[r]) else NaN
  }

  /** Component r of y while col products have been subtracted from it. */
  function LowerPartial(lu: Matrix, pb: Vector, r: nat, col: nat): Scalar
    requires col <= r < |lu| == |pb|
  {
    if NonzeroDiagonal(lu, col) then Fin(pb[r] - Dot(lu[r], Forward(lu, pb, col))) else NaN
  }

  lemma LowerStart(lu: Matrix, pb: Vector, r: nat)
    requires r < |lu| == |pb|
    ensures LowerPartial(lu, pb, r, 0) == Fin(pb[r])
  {
  }

  lemma LowerStep(lu: Matrix, pb: Vector, r: nat, col: nat)
    requires col < r < |lu| == |pb|
    ensures LowerPartial(lu, pb, r, col).SubtractProduct(Entry(lu, r, col), LowerComponent(lu, pb, col))
         == LowerPartial(lu, pb, r, col + 1)
  {
    if NonzeroDiagonal(lu, col + 1) {
      DotAppend(lu[r], Forward(lu, pb, col), Forward(lu, pb, col + 1));
    }
  }

  lemma LowerFinish(lu: Matrix, pb: Vector, r: nat)
    requires r < |lu| == |pb|
    ensures LowerComponent(lu, pb, r)
         == if Entry(lu, r, r) == 0.0 then NaN else LowerPartial(lu, pb, r, r).DividedBy(Entry(lu, r, r))
  {
  }

  lemma DotAppend(u: Vector, x: Vector, x': Vector)
    requires |x'| == |x| + 1 && x'[..|x|] == x
    ensures Dot(u, x') == Dot(u, x) + Comp(u, |x|) * x'[|x|]
  {
    forall k | 0 <= k < |x| ensures DotTerms(u, x')(k) == DotTerms(u, x)(k) { assert x'[..|x|][k] == x'[k]; }
    SumCong(DotTerms(u, x'), DotTerms(u, x), |x|);
  }

  /** The loop that solves Ly = Pb. */
  method SolveLower(factors: array2<real>, permutation: array<int>, b: Vector) returns (y: array<Scalar>)
    requires factors.Length0 == factors.Length1 == permutation.Length == |b| && IsPermutation(permutation[..])
    ensures fresh(y) && y.Length == |b|
    ensures forall r :: 0 <= r < |b| ==> y[r] == LowerComponent(Contents(factors), Permuted(b, permutation[..]), r)
  {
    hide LowerComponent, LowerPartial;
    var n := |b|;
    ghost var lu, pb := Contents(factors), Permuted(b, permutation[..]);
    y := new Scalar[n](_ => NaN);
    for rowIndex := 0 to n
      invariant forall r :: 0 <= r < rowIndex ==> y[r] == LowerComponent(lu, pb, r)
    {
      assert permutation[rowIndex] == permutation[..][rowIndex];
      y[rowIndex] := Fin(b[permutation[rowIndex]]);
      LowerStart(lu, pb, rowIndex);
      for colIndex := 0 to rowIndex
        invariant forall r :: 0 <= r < rowIndex ==> y[r] == LowerComponent(lu, pb, r)
        invariant y[rowIndex] == LowerPartial(lu, pb, rowIndex, colIndex)
      {
        LowerStep(lu, pb, rowIndex, colIndex);
        assert Entry(lu, rowIndex, colIndex) == factors[rowIndex, colIndex];
        y[rowIndex] := y[rowIndex].SubtractProduct(factors[rowIndex, colIndex], y[colIndex]);
      }
      LowerFinish(lu, pb, rowIndex);
      assert Entry(lu, rowIndex, rowIndex) == factors[rowIndex, rowIndex];
      if factors[rowIndex, rowIndex] == 0.0 {
        y[rowIndex] := NaN;
      } else {
        y[rowIndex] := y[rowIndex].DividedBy(factors[rowIndex, rowIndex]);
      }
    }
  }

  /** What row r of x holds while the columns before col have been subtracted. */
  function UpperPartial(lu: Matrix, y: Vector, r: nat, col: nat): real
    requires IsSquare(lu) && r < col <= |lu| == |y|
  {
    y[r] - Dot(lu[r][r + 1..], Backward(lu, y, r + 1)[..col - r - 1])
  }

  lemma UpperStep(lu: Matrix, y: Vector, r: nat, col: nat)
    requires IsSquare(lu) && r < col < |lu| == |y|
    ensures UpperPartial(lu, y, r, col + 1) == UpperPartial(lu, y, r, col) - Entry(lu, r, col) * Backward(lu, y, col)[0]
  {
    hide Dot, Backward;
    var x, k := Backward(lu, y, r + 1), col - r - 1;
    DotAppend(lu[r][r + 1..], x[..k], x[..k + 1]);
    BackwardSuffix(lu, y, r + 1, col);
    assert x[k] == x[k..][0];
  }

  lemma UpperEnds(lu: Matrix, y: Vector, r: nat)
    requires IsSquare(lu) && r < |lu| == |y|
    ensures UpperPartial(lu, y, r, r + 1) == y[r]
    ensures UpperPartial(lu, y, r, |lu|) == Backward(lu, y, r)[0]
  {
    var x := Backward(lu, y, r + 1);
    assert x[..|x|] == x;
  }

  lemma {:induction false} BackwardSuffix(lu: Matrix, y: Vector, r: nat, col: nat)
    requires IsSquare(lu) && r <= col <= |lu| == |y|
    ensures Backward(lu, y, r)[col - r..] == Backward(lu, y, col)
    decreases col - r
  {
    if r == col {
    } else {
      BackwardSuffix(lu, y, r + 1, col);
      assert Backward(lu, y, r)[col - r..] == Backward(lu, y, r + 1)[col - (r + 1)..];
    }
  }

  lemma BackwardComponent(lu: Matrix, y: Vector, r: nat)
    requires IsSquare(lu) && r < |lu| == |y|
    ensures Backward(lu, y, 0)[r] == Backward(lu, y, r)[0]
  {
    BackwardSuffix(lu, y, 0, r);
    assert Backward(lu, y, 0)[r..][0] == Backward(lu, y, 0)[r];
  }

  /** The loop that solves Ux = y, last row first. When the last component of y is
      NaN, every component of x is. */
  method SolveUpper(factors: array2<real>, y: array<Scalar>, ghost ys: Vector) returns (x: array<Scalar>)
    requires factors.Length0 == factors.Length1 == y.Length == |ys|
    requires y[..] == Finite(ys) || (0 < y.Length && y[y.Length - 1] == NaN)
    ensures fresh(x) && x.Length == y.Length
    ensures x[..] == if y[..] == Finite(ys) then Finite(Backward(Contents(factors), ys, 0)) else AllNaN(x.Length)
  {
    hide Backward, UpperPartial;
    var n := y.Length;
    ghost var lu, finite := Contents(factors), y[..] == Finite(ys);
    x := new Scalar[n](_ => NaN);
    for rowIndex := n downto 0
      invariant y[..] == old(y[..])
      invariant forall r :: rowIndex <= r < n ==> x[r] == if finite then Fin(Backward(lu, ys, r)[0]) else NaN
    {
      x[rowIndex] := y[rowIndex];
      UpperEnds(lu, ys, rowIndex);
      assert finite ==> y[..][rowIndex] == Fin(ys[rowIndex]);
      for colIndex := rowIndex + 1 to n
        invariant y[..] == old(y[..])
        invariant forall r :: rowIndex < r < n ==> x[r] == if finite then Fin(Backward(lu, ys, r)[0]) else NaN
        invariant finite ==> x[rowIndex] == Fin(UpperPartial(lu, ys, rowIndex, colIndex))
        invariant !finite && (colIndex > rowIndex + 1 || colIndex == n) ==> x[rowIndex] == NaN
      {
        UpperStep(lu, ys, rowIndex, colIndex);
        assert Entry(lu, rowIndex, colIndex) == factors[rowIndex, colIndex];
        x[rowIndex] := x[rowIndex].SubtractProduct(factors[rowIndex, colIndex], x[colIndex]);
      }
    }
    forall r | 0 <= r < n { BackwardComponent(lu, ys, r); }
  }

  lemma LowerResultAt(lu: Matrix, pb: Vector, r: nat)
    requires r < |lu| == |pb| && NonzeroDiagonal(lu, |lu|)
    ensures LowerComponent(lu, pb, r) == Fin(Forward(lu, pb, |lu|)[r])
  {
    hide Forward, Entry;
    ForwardPrefix(lu, pb, r + 1, |lu|);
    assert Forward(lu, pb, |lu|)[..r + 1][r] == Forward(lu, pb, |lu|)[r];
  }

  lemma LowerResultLast(lu: Matrix, pb: Vector)
    requires |lu| == |pb| && !NonzeroDiagonal(lu, |lu|)
    ensures 0 < |lu| && LowerComponent(lu, pb, |lu| - 1) == NaN
  {
    hide Forward, Entry;
  }

  lemma LowerResult(lu: Matrix, pb: Vector, y: seq<Scalar>)
    requires |lu| == |pb| == |y| && forall r :: 0 <= r < |pb| ==> y[r] == LowerComponent(lu, pb, r)
    ensures NonzeroDiagonal(lu, |lu|) ==> y == Finite(Forward(lu, pb, |lu|))
    ensures !NonzeroDiagonal(lu, |lu|) ==> 0 < |y| && y[|y| - 1] == NaN
  {
    hide Forward, LowerComponent, NonzeroDiagonal;
    if NonzeroDiagonal(lu, |lu|) {
      forall r | 0 <= r < |pb| ensures y[r] == Fin(Forward(lu, pb, |lu|)[r]) { LowerResultAt(lu, pb, r); }
    } else {
      LowerResultLast(lu, pb);
    }
  }

  /** Solves LUx = Pb; with a zero on the diagonal of L, every component is NaN. */
  method MatrixLUPSolve(factors: array2<real>, permutation: array<int>, b: Vector) returns (result: seq<Scalar>)
    requires factors.Length0 == factors.Length1 == permutation.Length == |b| && IsPermutation(permutation[..])
    ensures result == SolveResult(Contents(factors), permutation[..], b)
  {
    hide LowerComponent, Backward;
    ghost var lu, pb := Contents(factors), Permuted(b, permutation[..]);
    var y := SolveLower(factors, permutation, b);
    LowerResult(lu, pb, y[..]);
    ghost var ys := if NonzeroDiagonal(lu, |lu|) then Forward(lu, pb, |lu|) else pb;
    var x := SolveUpper(factors, y, ys);
    result := x[..];
  }

  /** Whatever the factorization's outcome, its result can be handed to the solve. */
  lemma FactorShape(a: Matrix, eps: real)
    requires IsSquare(a)
    ensures IsSquare(Factor(a, eps).lu) && IsPermutation(Factor(a, eps).perm)
  {
    IterateSquare(a, eps, |a|);
    ParityOfInversions(a, eps, |a|);
  }

  /** The copy of A that the factorization then overwrites. */
  method Copy(matrix: Matrix) returns (factors: array2<real>)
    requires IsSquare(matrix)
    ensures fresh(factors) && factors.Length0 == factors.Length1 == |matrix| && Contents(factors) == matrix
  {
    factors := new real[|matrix|, |matrix|]((i, j) => Entry(matrix, i, j));
    EqualEntries(Contents(factors), matrix, |matrix|, |matrix|);
  }

  function Values(x: seq<Scalar>): (v: Vector)
    ensures |v| == |x|
  {
    seq(|x|, i requires 0 <= i < |x| => if x[i].NaN? then 0.0 else x[i].value)
  }

  /** When valid, the result is a vector of reals, it solves Ax = b, and nothing
      else does; then A is not singular. */
  method SolveLinearSystem(matrix: Matrix, b: Vector, eps: real) returns (x: seq<Scalar>, valid: bool)
    requires IsSquare(matrix) && |b| == |matrix|
    ensures valid == Factor(matrix, eps).valid
    ensures IsSquare(Factor(matrix, eps).lu) && IsPermutation(Factor(matrix, eps).perm)
    ensures x == SolveResult(Factor(matrix, eps).lu, Factor(matrix, eps).perm, b)
    ensures valid && 0.0 < eps ==> x == Finite(Values(x)) && MatVec(matrix, Values(x)) == b
    ensures valid && 0.0 < eps ==> forall v: Vector :: |v| == |b| && MatVec(matrix, v) == b ==> x == Finite(v)
    ensures valid && 0.0 < eps ==> !Singular(matrix)
  {
    var factors := Copy(matrix);
    var permutation := new int[|matrix|];
    var inversionParity;
    inversionParity, valid := MatrixLUPFactor(factors, permutation, eps);
    FactorShape(matrix, eps);
    x := MatrixLUPSolve(factors, permutation, b);
    if valid && 0.0 < eps { SolveIsExact(matrix, b, eps, x); }
  }

  lemma SolveIsExact(matrix: Matrix, b: Vector, eps: real, x: seq<Scalar>)
    requires IsSquare(matrix) && |b| == |matrix| && 0.0 < eps && Factor(matrix, eps).valid
    requires IsSquare(Factor(matrix, eps).lu) && IsPermutation(Factor(matrix, eps).perm)
    requires x == SolveResult(Factor(matrix, eps).lu, Factor(matrix, eps).perm, b)
    ensures x == Finite(Values(x)) && MatVec(matrix, Values(x)) == b
    ensures forall v: Vector :: |v| == |b| && MatVec(matrix, v) == b ==> x == Finite(v)
    ensures !Singular(matrix)
  {
    FactorUsable(matrix, eps);
    var s := Solution(Factor(matrix, eps).lu, Factor(matrix, eps).perm, b);
    assert Values(x) == s;
    SolutionIffSolves(matrix, eps, b, s);
    forall v: Vector | |v| == |b| && MatVec(matrix, v) == b ensures x == Finite(v) {
      SolutionIffSolves(matrix, eps, b, v);
    }
    ValidIsRegular(matrix, eps);
  }

  /** When valid, the result multiplied by A, on either side, is the identity. */
  lemma UnitColumn(s: Vector, c: nat)
    requires c < |s| && s[c] == 1.0 && forall i :: 0 <= i < |s| && i != c ==> s[i] == 0.0
    ensures s == UnitVector(|s|, c)
  {
  }

  method MatrixInverse(matrix: Matrix, eps: real) returns (invA: array2<Scalar>, valid: bool)
    requires IsSquare(matrix)
    ensures fresh(invA) && invA.Length0 == invA.Length1 == |matrix|
    ensures valid == Factor(matrix, eps).valid
    ensures valid && 0.0 < eps ==>
              forall i, j :: 0 <= i < |matrix| && 0 <= j < |matrix| ==> invA[i, j] == Fin(Inverse(matrix, eps)[i][j])
    ensures IsSquare(Factor(matrix, eps).lu) && IsPermutation(Factor(matrix, eps).perm)
    ensures forall i, j :: 0 <= i < |matrix| && 0 <= j < |matrix| ==>
              invA[i, j] == SolveResult(Factor(matrix, eps).lu, Factor(matrix, eps).perm, UnitVector(|matrix|, j))[i]
  {
    hide SolveResult, Factor, Inverse, Iterate, Contents, UnitVector;
    var n := |matrix|;
    var factors := Copy(matrix);
    var permutation := new int[n];
    var inversionParity;
    inversionParity, valid := MatrixLUPFactor(factors, permutation, eps);
    FactorShape(matrix, eps);
    ghost var f := Factor(matrix, eps);
    invA := new Scalar[n, n]((i, j) => NaN);
    var iCol := new real[n](_ => 0.0);
    for colIndex := 0 to n
      invariant Contents(factors) == f.lu && permutation[..] == f.perm
      invariant forall i :: 0 <= i < n ==> iCol[i] == 0.0
      invariant forall i, j :: 0 <= i < n && 0 <= j < colIndex ==>
                  invA[i, j] == SolveResult(f.lu, f.perm, UnitVector(n, j))[i]
    {
      iCol[colIndex] := 1.0;
      UnitColumn(iCol[..], colIndex);
      var invACol := MatrixLUPSolve(factors, permutation, iCol[..]);
      iCol[colIndex] := 0.0;
      MatrixSetColumn(invA, colIndex, invACol);
    }
    if valid && 0.0 < eps {
      forall i, j | 0 <= i < n && 0 <= j < n ensures invA[i, j] == Fin(Inverse(matrix, eps)[i][j]) {
        InverseEntry(matrix, eps, i, j);
      }
    }
  }

  lemma InverseEntry(matrix: Matrix, eps: real, i: nat, j: nat)
    requires IsSquare(matrix) && 0.0 < eps && Factor(matrix, eps).valid && i < |matrix| && j < |matrix|
    requires IsSquare(Factor(matrix, eps).lu) && IsPermutation(Factor(matrix, eps).perm)
    ensures SolveResult(Factor(matrix, eps).lu, Factor(matrix, eps).perm, UnitVector(|matrix|, j))[i]
         == Fin(Inverse(matrix, eps)[i][j])
  {
    FactorUsable(matrix, eps);
  }

  method MatrixSetColumn(matrix: array2<Scalar>, column: nat, values: seq<Scalar>)
    requires column < matrix.Length1 && |values| == matrix.Length0
    modifies matrix
    ensures forall i, j :: 0 <= i < matrix.Length0 && 0 <= j < matrix.Length1 ==>
              matrix[i, j] == if j == column then values[i] else old(matrix[i, j])
  {
    for rowIndex := 0 to matrix.Length0
      invariant forall i, j :: 0 <= i < matrix.Length0 && 0 <= j < matrix.Length1 ==>
                  matrix[i, j] == if j == column && i < rowIndex then values[i] else old(matrix[i, j])
    {
      matrix[rowIndex, column] := values[rowIndex];
    }
  }

  /** The determinant, exact unless the pivot test rejects a regular matrix of
      order four or more. */
  method MatrixDeterminant(matrix: Matrix, eps: real) returns (det: real)
    requires IsSquare(matrix) && 0 < |matrix| && 0.0 < eps
    ensures det == Determinant(matrix) <==> |matrix| <= 3 || Singular(matrix) || PivotsReach(matrix, eps)
    ensures det == Determinant(matrix) || det == 0.0
  {
    if |matrix| == 1 {
      DirectFormulas(matrix);
      return matrix[0][0];
    }
    if |matrix| == 2 {
      DirectFormulas(matrix);
      return matrix[0][0] * matrix[1][1] - matrix[1][0] * matrix[0][1];
    }
    if |matrix| == 3 {
      DirectFormulas(matrix);
      return matrix[0][0] * matrix[1][1] * matrix[2][2]
           + matrix[1][0] * matrix[2][1] * matrix[0][2] + matrix[2][0] * matrix[0][1] * matrix[1][2]
           - matrix[0][0] * matrix[2][1] * matrix[1][2]
           - matrix[1][0] * matrix[0][1] * matrix[2][2] - matrix[2][0] * matrix[1][1] * matrix[0][2];
    }
    det := GeneralDeterminant(matrix, eps);
    DeterminantZeroIffSingular(matrix);
    AcceptedIff(matrix, eps);
  }

  /** The template for any size: parity times the diagonal of L, or zero when the
      factorization stopped. */
  method GeneralDeterminant(matrix: Matrix, eps: real) returns (product: real)
    requires IsSquare(matrix) && 0.0 < eps
    ensures product == if Factor(matrix, eps).valid then Determinant(matrix) else 0.0
  {
    hide Determinant, Iterate, DiagonalProduct, MatMul, Det;
    var factors := Copy(matrix);
    var permutation := new int[|matrix|];
    var inversionParity, valid := MatrixLUPFactor(factors, permutation, eps);
    if !valid {
      return 0.0;
    }
    ghost var lu := Contents(factors);
    product := inversionParity;
    for index := 0 to |matrix|
      invariant Contents(factors) == lu
      invariant product == SignedProduct(lu, inversionParity, index)
    {
      assert Entry(lu, index, index) == factors[index, index];
      product := product * factors[index, index];
    }
    SignedIsProduct(lu, inversionParity, |matrix|);
    DeterminantFromFactor(matrix, eps, Factor(matrix, eps));
  }

  /** The running product of the determinant's loop. */
  function SignedProduct(lu: Matrix, sign: real, k: nat): real {
    if k == 0 then sign else SignedProduct(lu, sign, k - 1) * Entry(lu, k - 1, k - 1)
  }

  lemma {:induction false} SignedIsProduct(lu: Matrix, sign: real, k: nat)
    ensures SignedProduct(lu, sign, k) == sign * DiagonalProduct(lu, k)
  {
    if k == 0 {
    } else {
      SignedIsProduct(lu, sign, k - 1);
      MulAssoc(sign, DiagonalProduct(lu, k - 1), Entry(lu, k - 1, k - 1));
    }
  }

  lemma MulAssoc(x: real, y: real, z: real)
    ensures x * y * z == x * (y * z)
  {
  }

  // ----- products

  method MatrixMultiply(leftFactor: Matrix, rightFactor: Matrix, ghost cols: nat) returns (result: array2<real>)
    requires 0 < |leftFactor| && 0 < |rightFactor| && 0 < cols
    requires IsMatrix(leftFactor, |leftFactor|, |rightFactor|) && IsMatrix(rightFactor, |rightFactor|, cols)
    ensures fresh(result) && Contents(result) == MatMul(leftFactor, rightFactor, cols)
  {
    var rows, columns := |leftFactor|, |rightFactor[0]|;
    result := new real[rows, columns]((i, j) => 0.0);
    for rowIndex := 0 to rows
      invariant forall i, j :: 0 <= i < rowIndex && 0 <= j < columns ==>
                  result[i, j] == Dot(leftFactor[i], Column(rightFactor, j))
    {
      for colIndex := 0 to columns
        invariant forall i, j :: 0 <= i < rows && 0 <= j < columns && (i < rowIndex || (i == rowIndex && j < colIndex)) ==>
                    result[i, j] == Dot(leftFactor[i], Column(rightFactor, j))
      {
        ghost var terms := DotTerms(leftFactor[rowIndex], Column(rightFactor, colIndex));
        var sum := leftFactor[rowIndex][0] * rightFactor[0][colIndex];
        assert sum == terms(0) == Sum(terms, 1);
        for internalIndex := 1 to |rightFactor|
          invariant sum == Sum(terms, internalIndex)
        {
          assert terms(internalIndex) == leftFactor[rowIndex][internalIndex] * rightFactor[internalIndex][colIndex];
          sum := sum + leftFactor[rowIndex][internalIndex] * rightFactor[internalIndex][colIndex];
        }
        result[rowIndex, colIndex] := sum;
      }
    }
    EqualEntries(Contents(result), MatMul(leftFactor, rightFactor, cols), rows, columns);
  }
}
