/** A matrix has determinant zero exactly when it sends some nonzero vector to
    zero; so the threshold in the pivot test decides when a determinant of zero
    is reported wrongly. */
module Singularity {
  import opened Sums
  import opened Matrices
  import opened Permutations
  import opened Determinants
  import opened LUP
  import opened LUPFactor

  function Zeros(n: nat): (v: Vector)
    ensures |v| == n
  {
    seq(n, i => 0.0)
  }

  ghost predicate Singular(a: Matrix) {
    exists x: Vector :: |x| == |a| && x != Zeros(|a|) && MatVec(a, x) == Zeros(|a|)
  }

  /** x is nonzero, zero before column c, and orthogonal to every row. */
  predicate InKernel(rows: Matrix, c: nat, x: Vector) {
    && |x| == c + |rows| && x != Zeros(|x|)
    && (forall j :: 0 <= j < c ==> x[j] == 0.0)
    && (forall r :: 0 <= r < |rows| ==> Dot(rows[r], x) == 0.0)
  }

  /** The rows below the first, cleared of column c by multiples of the first. */
  function Cleared(rows: Matrix, c: nat): (rest: Matrix)
    requires 0 < |rows| && Comp(rows[0], c) != 0.0
    ensures |rest| == |rows| - 1
  {
    seq(|rows| - 1, r requires 0 <= r < |rows| - 1 => seq(c + |rows|, j =>
      Comp(rows[r + 1], j) + ClearingFactor(rows, c)(r + 1) * Comp(rows[0], j)))
  }

  function ClearingFactor(rows: Matrix, c: nat): int -> real
    requires 0 < |rows| && Comp(rows[0], c) != 0.0
  {
    r => -(Entry(rows, r, c) / Comp(rows[0], c))
  }

  lemma ClearsColumn(rows: Matrix, c: nat, r: nat)
    requires 0 < r < |rows| && Comp(rows[0], c) != 0.0
    ensures Comp(rows[r], c) + ClearingFactor(rows, c)(r) * Comp(rows[0], c) == 0.0
  {
    var d := Comp(rows[0], c);
    assert -(Comp(rows[r], c) / d) * d == -Comp(rows[r], c);
  }

  lemma ClearedDet(rows: Matrix, c: nat)
    requires 0 < |rows| && Comp(rows[0], c) != 0.0
    ensures Det(rows, c) == Comp(rows[0], c) * Det(Cleared(rows, c), c + 1)
  {
    hide Det, ClearingFactor;
    forall r | 0 < r < |rows| ensures Comp(rows[r], c) + ClearingFactor(rows, c)(r) * Comp(rows[0], c) == 0.0 {
      ClearsColumn(rows, c, r);
    }
    DetSchur(rows, Cleared(rows, c), c, ClearingFactor(rows, c));
  }

  /** For a vector that vanishes up to column c, clearing acts on dot products. */
  lemma ClearedDot(rows: Matrix, c: nat, x: Vector, r: nat)
    requires 0 < |rows| && Comp(rows[0], c) != 0.0 && |x| == c + |rows| && r + 1 < |rows|
    ensures Dot(Cleared(rows, c)[r], x) == Combine(1.0, Dot(rows[r + 1], x), ClearingFactor(rows, c)(r + 1), Dot(rows[0], x))
  {
    var t := ClearingFactor(rows, c)(r + 1);
    var f, g, h := DotTerms(rows[r + 1], x), DotTerms(rows[0], x), DotTerms(Cleared(rows, c)[r], x);
    forall j | 0 <= j < |x| ensures h(j) == Combine(1.0, f(j), t, g(j)) {
      ExpandTerm(Comp(rows[r + 1], j), t, Comp(rows[0], j), x[j]);
    }
    SumLinear(f, 1.0, g, t, h, |x|);
  }

  lemma ExpandTerm(e: real, t: real, p: real, x: real)
    ensures (e + t * p) * x == 1.0 * (e * x) + t * (p * x)
  {
  }

  lemma UpdateTerm(u: Vector, x: Vector, c: nat, v: real, j: nat)
    requires c < |x| && j < |x|
    ensures DotTerms(u, x[c := v])(j)
         == Combine(1.0, DotTerms(u, x)(j), v - x[c], DotTerms(u, UnitVector(|x|, c))(j))
  {
    if j == c { ExpandTerm(x[c], v - x[c], 1.0, Comp(u, c)); }
  }

  lemma DotUpdate(u: Vector, x: Vector, c: nat, v: real)
    requires c < |x|
    ensures Dot(u, x[c := v]) == Dot(u, x) + Comp(u, c) * (v - x[c])
  {
    hide DotTerms;
    var f, g, h := DotTerms(u, x), DotTerms(u, UnitVector(|x|, c)), DotTerms(u, x[c := v]);
    forall j | 0 <= j < |x| ensures h(j) == Combine(1.0, f(j), v - x[c], g(j)) { UpdateTerm(u, x, c, v, j); }
    SumLinear(f, 1.0, g, v - x[c], h, |x|);
    DotUnit(u, |x|, c);
  }

  lemma KernelAfterSwap(rows: Matrix, c: nat, x: Vector, i: nat, j: nat)
    requires i < |rows| && j < |rows| && InKernel(Swap(rows, i, j), c, x)
    ensures InKernel(rows, c, x)
  {
    var s := Swap(rows, i, j);
    forall r | 0 <= r < |rows| ensures Dot(rows[r], x) == 0.0 {
      assert rows[r] == s[if r == i then j else if r == j then i else r];
    }
  }

  lemma DetOfSwapZero(rows: Matrix, c: nat, r: nat)
    requires r < |rows|
    ensures Det(Swap(rows, 0, r), c) == 0.0 <==> Det(rows, c) == 0.0
  {
    if r > 0 { DetSwap(rows, c, 0, r); } else { assert Swap(rows, 0, 0) == rows; }
  }

  lemma ZeroColumnDet(rows: Matrix, c: nat)
    requires 0 < |rows| && forall r :: 0 <= r < |rows| ==> Comp(rows[r], c) == 0.0
    ensures Det(rows, c) == 0.0
  {
    DetIsSum(rows, c);
    SumZero(Cofactors(rows, c), |rows|);
  }

  lemma KernelExtends(rows: Matrix, c: nat, x: Vector)
    requires 0 < |rows| && Comp(rows[0], c) != 0.0 && InKernel(Cleared(rows, c), c + 1, x)
    ensures InKernel(rows, c, x[c := -Dot(rows[0], x) / Comp(rows[0], c)])
  {
    var d, p := Comp(rows[0], c), Dot(rows[0], x);
    var v := -p / d;
    var x' := x[c := v];
    forall r | 0 <= r < |rows| ensures Dot(rows[r], x') == 0.0 {
      DotUpdate(rows[r], x, c, v);
      if r == 0 {
        assert d * v == -p;
      } else {
        ClearedDot(rows, c, x, r - 1);
        var e := Comp(rows[r], c);
        assert ClearingFactor(rows, c)(r) == -(e / d);
        assert e * (-p / d) == -(e / d) * p;
      }
    }
    NonzeroElsewhere(x, c, v);
  }

  lemma NonzeroElsewhere(x: Vector, c: nat, v: real)
    requires c < |x| && x[c] == 0.0 && x != Zeros(|x|)
    ensures x[c := v] != Zeros(|x|)
  {
    var j :| 0 <= j < |x| && x[j] != 0.0;
    assert x[c := v][j] == x[j];
  }

  /** Determinant zero: eliminate until a column has no pivot, and solve back. */
  lemma {:induction false} KernelExists(rows: Matrix, c: nat) returns (x: Vector)
    requires Det(rows, c) == 0.0
    ensures InKernel(rows, c, x)
    decreases |rows|
  {
    if r :| 0 <= r < |rows| && Comp(rows[r], c) != 0.0 {
      var s := Swap(rows, 0, r);
      DetOfSwapZero(rows, c, r);
      ClearedDet(s, c);
      var x' := KernelExists(Cleared(s, c), c + 1);
      KernelExtends(s, c, x');
      x := x'[c := -Dot(s[0], x') / Comp(s[0], c)];
      KernelAfterSwap(rows, c, x, 0, r);
    } else {
      assert 0 < |rows|;
      x := UnitVector(c + |rows|, c);
      assert x[c] == 1.0;
      forall r | 0 <= r < |rows| ensures Dot(rows[r], x) == 0.0 { DotUnit(rows[r], |x|, c); }
    }
  }

  lemma KernelRestricts(rows: Matrix, c: nat, x: Vector)
    requires 0 < |rows| && Comp(rows[0], c) != 0.0 && InKernel(rows, c, x)
    ensures InKernel(Cleared(rows, c), c + 1, x[c := 0.0])
  {
    var rest, x' := Cleared(rows, c), x[c := 0.0];
    var d := Comp(rows[0], c);
    forall r | 0 <= r < |rest| ensures Dot(rest[r], x') == 0.0 {
      ClearedDot(rows, c, x, r);
      DotUpdate(rest[r], x, c, 0.0);
      var e := Comp(rows[r + 1], c);
      assert ClearingFactor(rows, c)(r + 1) == -(e / d);
      assert -(e / d) * d == -e;
    }
    if x' == Zeros(|x|) {
      forall j | 0 <= j < |x| && j != c ensures x[j] == 0.0 { assert x'[j] == 0.0; }
      OnlyComponent(rows[0], x, c);
    }
  }

  lemma OnlyComponent(u: Vector, x: Vector, c: nat)
    requires c < |x| && Comp(u, c) != 0.0 && Dot(u, x) == 0.0
    requires forall j :: 0 <= j < |x| && j != c ==> x[j] == 0.0
    ensures x == Zeros(|x|)
  {
    SumSingle(DotTerms(u, x), |x|, c);
    assert Comp(u, c) * x[c] == 0.0;
  }

  lemma {:induction false} KernelGivesZero(rows: Matrix, c: nat, x: Vector)
    requires InKernel(rows, c, x)
    ensures Det(rows, c) == 0.0
    decreases |rows|
  {
    if |rows| == 0 {
    } else if r :| 0 <= r < |rows| && Comp(rows[r], c) != 0.0 {
      var s := Swap(rows, 0, r);
      assert Swap(s, 0, r) == rows;
      KernelAfterSwap(s, c, x, 0, r);
      KernelRestricts(s, c, x);
      KernelGivesZero(Cleared(s, c), c + 1, x[c := 0.0]);
      ClearedDet(s, c);
      DetOfSwapZero(rows, c, r);
    } else {
      ZeroColumnDet(rows, c);
    }
  }

  lemma DeterminantZeroIffSingular(a: Matrix)
    requires IsSquare(a)
    ensures Determinant(a) == 0.0 <==> Singular(a)
  {
    if Determinant(a) == 0.0 {
      var x := KernelExists(a, 0);
      assert MatVec(a, x) == Zeros(|a|);
    }
    if Singular(a) {
      var x :| |x| == |a| && x != Zeros(|a|) && MatVec(a, x) == Zeros(|a|);
      forall r | 0 <= r < |a| ensures Dot(a[r], x) == 0.0 { assert MatVec(a, x)[r] == 0.0; }
      KernelGivesZero(a, 0, x);
    }
  }

  /** A singular matrix is never reported valid. */
  lemma ValidIsRegular(a: Matrix, eps: real)
    requires IsSquare(a) && 0.0 < eps && Factor(a, eps).valid
    ensures !Singular(a)
  {
    ValidIsNonsingular(a, eps);
    DeterminantZeroIffSingular(a);
  }

  // ----- the converse needs more (PivotThreshold says what): the pivot test is a
  //       threshold, not a test for zero

  function ScaledIdentity(n: nat, s: real): (m: Matrix)
    ensures IsMatrix(m, n, n)
  {
    seq(n, i => seq(n, j => if i == j then s else 0.0))
  }

  /** Half the threshold on the diagonal: regular, and yet rejected. */
  lemma SmallRegularRejected(n: nat, eps: real)
    requires 0 < n && 0.0 < eps
    ensures !Factor(ScaledIdentity(n, eps / 2.0), eps).valid
    ensures !Singular(ScaledIdentity(n, eps / 2.0))
  {
    var s := eps / 2.0;
    var a := ScaledIdentity(n, s);
    SmallFirstPivot(n, s, eps);
    StoppedAt(a, eps, 1, n);
    forall x: Vector | |x| == n && MatVec(a, x) == Zeros(n) ensures x == Zeros(n) {
      ScaledIdentityRegular(n, s, x);
    }
  }

  lemma SmallFirstPivot(n: nat, s: real, eps: real)
    requires 0 < n && 0.0 < s < eps
    ensures !Iterate(ScaledIdentity(n, s), eps, 1).valid
  {
    var a := ScaledIdentity(n, s);
    assert Iterate(a, eps, 1) == Advance(Iterate(a, eps, 0), 0, eps);
  }

  lemma ScaledIdentityRegular(n: nat, s: real, x: Vector)
    requires s != 0.0 && |x| == n && MatVec(ScaledIdentity(n, s), x) == Zeros(n)
    ensures x == Zeros(n)
  {
    var a := ScaledIdentity(n, s);
    forall i | 0 <= i < n ensures x[i] == 0.0 {
      SumSingle(DotTerms(a[i], x), n, i);
      assert MatVec(a, x)[i] == 0.0;
      assert s * x[i] == 0.0;
    }
  }
}
