/** The two triangular solves, and why a valid factorization makes them return
    the only solution of Ax = b. */
module LUPSolve {
  import opened Arithmetic
  import opened Sums
  import opened Matrices
  import opened Permutations
  import opened LUP
  import opened LUPFactor

  /** A component of a result: an exact real, or the NaN stored when the
      diagonal of L holds a zero. Arithmetic on NaN gives NaN. */
  datatype Scalar = NaN | Fin(value: real) {
    /** this - c * x */
    function SubtractProduct(c: real, x: Scalar): Scalar {
      if this.NaN? || x.NaN? then NaN else Fin(value - c * x.value)
    }

    function DividedBy(c: real): Scalar
      requires c != 0.0
    {
      if NaN? then NaN else Fin(value / c)
    }
  }

  /** The first k components of the y with L y = b. */
  function Forward(lu: Matrix, b: Vector, k: nat): (y: Vector)
    requires k <= |lu| == |b| && NonzeroDiagonal(lu, k)
    ensures |y| == k
  {
    if k == 0 then []
    else
      var y := Forward(lu, b, k - 1);
      y + [(b[k - 1] - Dot(lu[k - 1], y)) / Entry(lu, k - 1, k - 1)]
  }

  /** Components k.. of the x with U x = y. */
  function Backward(lu: Matrix, y: Vector, k: nat): (x: Vector)
    requires IsSquare(lu) && k <= |lu| == |y|
    ensures |x| == |lu| - k
    decreases |lu| - k
  {
    if k == |lu| then []
    else
      var x := Backward(lu, y, k + 1);
      [y[k] - Dot(lu[k][k + 1..], x)] + x
  }

  function Solution(lu: Matrix, perm: seq<int>, b: Vector): (x: Vector)
    requires IsSquare(lu) && |lu| == |perm| == |b| && IsPermutation(perm) && NonzeroDiagonal(lu, |lu|)
    ensures |x| == |lu|
  {
    Backward(lu, Forward(lu, Permuted(b, perm), |lu|), 0)
  }

  function Finite(v: Vector): (r: seq<Scalar>)
    ensures |r| == |v|
  {
    seq(|v|, i requires 0 <= i < |v| => Fin(v[i]))
  }

  function AllNaN(n: nat): (r: seq<Scalar>)
    ensures |r| == n
  {
    seq(n, i => NaN)
  }

  /** What the solve returns on any factorization, finished or abandoned. */
  function SolveResult(lu: Matrix, perm: seq<int>, b: Vector): (x: seq<Scalar>)
    requires IsSquare(lu) && |lu| == |perm| == |b| && IsPermutation(perm)
    ensures |x| == |lu|
  {
    if NonzeroDiagonal(lu, |lu|) then Finite(Solution(lu, perm, b)) else AllNaN(|lu|)
  }

  // ----- rows of the triangular systems

  lemma LowerRow(lu: Matrix, y: Vector, i: nat)
    requires IsSquare(lu) && |y| == |lu| && i < |lu|
    ensures Dot(LowerPart(lu)[i], y) == Dot(lu[i], y[..i]) + Entry(lu, i, i) * y[i]
  {
    var f, g := DotTerms(LowerPart(lu)[i], y), DotTerms(lu[i], y[..i]);
    forall t | 0 <= t < |lu| ensures Comp(LowerPart(lu)[i], t) == Lower(lu, i, t) { LowerEntry(lu, i, t); }
    SumTruncate(f, i + 1, |lu|);
    SumCong(f, g, i);
  }

  lemma UpperTerm(lu: Matrix, x: Vector, t: nat, j: nat)
    requires IsSquare(lu) && |x| == |lu| && t < |lu| && j < |lu|
    ensures DotTerms(UpperPart(lu)[t], x)(j) == if j < t then 0.0 else if j == t then x[t] else lu[t][j] * x[j]
  {
    UpperEntry(lu, t, j);
    assert DotTerms(UpperPart(lu)[t], x)(j) == Upper(lu, t, j) * x[j];
  }

  lemma TailTerm(u: Vector, x: Vector, m: nat, k: nat)
    requires |u| == |x| && m + k < |x|
    ensures DotTerms(u[m..], x[m..])(k) == u[m + k] * x[m + k]
  {
  }

  lemma UpperRow(lu: Matrix, x: Vector, t: nat)
    requires IsSquare(lu) && |x| == |lu| && t < |lu|
    ensures Dot(UpperPart(lu)[t], x) == x[t] + Dot(lu[t][t + 1..], x[t + 1..])
  {
    hide UpperPart, DotTerms;
    var f, g, m := DotTerms(UpperPart(lu)[t], x), DotTerms(lu[t][t + 1..], x[t + 1..]), |lu| - (t + 1);
    forall j | 0 <= j < t ensures f(j) == 0.0 { UpperTerm(lu, x, t, j); }
    UpperTerm(lu, x, t, t);
    forall k | 0 <= k < m ensures Shifted(f, t + 1)(k) == g(k) {
      UpperTerm(lu, x, t, k + (t + 1));
      TailTerm(lu[t], x, t + 1, k);
    }
    SumSplit(f, t + 1, |lu|);
    SumZero(f, t);
    SumCong(Shifted(f, t + 1), g, m);
  }

  // ----- each triangular system has exactly one solution

  predicate SolvesLower(lu: Matrix, b: Vector, y: Vector, k: nat)
    requires k <= |lu| == |b|
  {
    forall i :: 0 <= i < k ==> Dot(LowerPart(lu)[i], y) == b[i]
  }

  predicate SolvesUpper(lu: Matrix, y: Vector, x: Vector, k: nat)
    requires k <= |lu| == |y|
  {
    forall t :: k <= t < |lu| ==> Dot(UpperPart(lu)[t], x) == y[t]
  }

  lemma {:induction false} ForwardSolves(lu: Matrix, b: Vector, y: Vector, k: nat)
    requires IsSquare(lu) && k <= |lu| == |b| == |y| && NonzeroDiagonal(lu, k)
    ensures SolvesLower(lu, b, y, k) <==> y[..k] == Forward(lu, b, k)
  {
    hide Dot, LowerPart;
    if k == 0 {
    } else {
      ForwardSolves(lu, b, y, k - 1);
      LowerRow(lu, y, k - 1);
      assert y[..k] == y[..k - 1] + [y[k - 1]];
      DivideIff(Entry(lu, k - 1, k - 1), y[k - 1], b[k - 1], Dot(lu[k - 1], y[..k - 1]));
      assert Forward(lu, b, k)[..k - 1] == Forward(lu, b, k - 1);
      assert y[..k][..k - 1] == y[..k - 1];
    }
  }

  lemma DivideIff(d: real, y: real, b: real, s: real)
    requires d != 0.0
    ensures s + d * y == b <==> y == (b - s) / d
  {
    if s + d * y == b { assert (b - s) / d == d * y / d; }
  }

  lemma ConsEqual(x: Vector, k: nat, v: real, rest: Vector)
    requires k < |x|
    ensures x[k..] == [v] + rest <==> x[k] == v && x[k + 1..] == rest
  {
    assert x[k..] == [x[k]] + x[k + 1..];
    assert ([v] + rest)[1..] == rest && x[k..][1..] == x[k + 1..];
  }

  lemma SolvesUpperNext(lu: Matrix, y: Vector, x: Vector, k: nat)
    requires k < |lu| == |y|
    ensures SolvesUpper(lu, y, x, k) <==> SolvesUpper(lu, y, x, k + 1) && Dot(UpperPart(lu)[k], x) == y[k]
  {
    hide Dot, UpperPart;
  }

  lemma {:induction false} BackwardSolves(lu: Matrix, y: Vector, x: Vector, k: nat)
    requires IsSquare(lu) && k <= |lu| == |y| == |x|
    ensures SolvesUpper(lu, y, x, k) <==> x[k..] == Backward(lu, y, k)
    decreases |lu| - k
  {
    hide Dot, UpperPart;
    if k == |lu| {
    } else {
      BackwardSolves(lu, y, x, k + 1);
      BackwardStep(lu, y, x, k);
    }
  }

  lemma BackwardNext(lu: Matrix, y: Vector, k: nat)
    requires IsSquare(lu) && k < |lu| == |y|
    ensures var rest := Backward(lu, y, k + 1);
            Backward(lu, y, k) == [y[k] - Dot(lu[k][k + 1..], rest)] + rest
  {
  }

  lemma BackwardStep(lu: Matrix, y: Vector, x: Vector, k: nat)
    requires IsSquare(lu) && k < |lu| == |y| == |x|
    requires SolvesUpper(lu, y, x, k + 1) <==> x[k + 1..] == Backward(lu, y, k + 1)
    ensures SolvesUpper(lu, y, x, k) <==> x[k..] == Backward(lu, y, k)
  {
    hide Dot, UpperPart, SolvesUpper, Backward;
    var rest := Backward(lu, y, k + 1);
    SolvesUpperNext(lu, y, x, k);
    BackwardNext(lu, y, k);
    ConsEqual(x, k, y[k] - Dot(lu[k][k + 1..], rest), rest);
    if x[k + 1..] == rest { UpperRow(lu, x, k); }
  }

  // ----- composing them

  lemma PermutedMatVec(a: Matrix, perm: seq<int>, x: Vector)
    requires |perm| == |a| && IsPermutation(perm)
    ensures Permuted(MatVec(a, x), perm) == MatVec(Permuted(a, perm), x)
  {
  }

  lemma PermutedInjective(u: Vector, v: Vector, perm: seq<int>)
    requires |perm| == |u| == |v| && IsPermutation(perm) && Permuted(u, perm) == Permuted(v, perm)
    ensures u == v
  {
    forall r | 0 <= r < |u| ensures u[r] == v[r] {
      assert r in perm;
      var i :| 0 <= i < |perm| && perm[i] == r;
      assert Permuted(u, perm)[i] == Permuted(v, perm)[i];
    }
  }

  lemma LowerSystem(lu: Matrix, b: Vector, y: Vector)
    requires IsSquare(lu) && |lu| == |b| == |y| && NonzeroDiagonal(lu, |lu|)
    ensures MatVec(LowerPart(lu), y) == b <==> y == Forward(lu, b, |lu|)
  {
    ForwardSolves(lu, b, y, |lu|);
    assert y[..|lu|] == y;
    if SolvesLower(lu, b, y, |lu|) {
      assert MatVec(LowerPart(lu), y) == b;
    } else {
      var i :| 0 <= i < |lu| && Dot(LowerPart(lu)[i], y) != b[i];
      assert MatVec(LowerPart(lu), y)[i] != b[i];
    }
  }

  lemma UpperSystem(lu: Matrix, y: Vector, x: Vector)
    requires IsSquare(lu) && |lu| == |y| == |x|
    ensures MatVec(UpperPart(lu), x) == y <==> x == Backward(lu, y, 0)
  {
    BackwardSolves(lu, y, x, 0);
    assert x[0..] == x;
    if SolvesUpper(lu, y, x, 0) {
      assert MatVec(UpperPart(lu), x) == y;
    } else {
      var t :| 0 <= t < |lu| && Dot(UpperPart(lu)[t], x) != y[t];
      assert MatVec(UpperPart(lu), x)[t] != y[t];
    }
  }

  lemma DiagonalNonzero(lu: Matrix, k: nat, eps: real)
    requires 0.0 < eps && DiagonalAtLeast(lu, k, eps)
    ensures NonzeroDiagonal(lu, k)
  {
    forall t | 0 <= t < k ensures Entry(lu, t, t) != 0.0 { assert eps <= Abs(Entry(lu, t, t)); }
  }

  lemma FactorUsable(a: Matrix, eps: real)
    requires IsSquare(a) && 0.0 < eps && Factor(a, eps).valid
    ensures var f := Factor(a, eps);
            IsSquare(f.lu) && IsPermutation(f.perm) && NonzeroDiagonal(f.lu, |a|)
  {
    IterateRepresents(a, eps, |a|);
    DiagonalNonzero(Factor(a, eps).lu, |a|, eps);
  }

  /** With a valid factorization, Ax = b holds of the computed x and of no other. */
  lemma SolutionIffSolves(a: Matrix, eps: real, b: Vector, x: Vector)
    requires IsSquare(a) && |a| == |b| == |x| && 0.0 < eps && Factor(a, eps).valid
    ensures var f := Factor(a, eps);
            && IsSquare(f.lu) && IsPermutation(f.perm) && NonzeroDiagonal(f.lu, |a|)
            && (MatVec(a, x) == b <==> x == Solution(f.lu, f.perm, b))
  {
    FactorUsable(a, eps);
    FactorIsLUP(a, eps);
    var f := Factor(a, eps);
    TriangularSystems(a, f.lu, f.perm, b, x);
  }

  lemma TriangularSystems(a: Matrix, lu: Matrix, perm: seq<int>, b: Vector, x: Vector)
    requires IsSquare(lu) && |a| == |lu| == |perm| == |b| == |x|
    requires IsPermutation(perm) && NonzeroDiagonal(lu, |lu|)
    requires Permuted(a, perm) == MatMul(LowerPart(lu), UpperPart(lu), |a|)
    ensures MatVec(a, x) == b <==> x == Solution(lu, perm, b)
  {
    var y, pb := MatVec(UpperPart(lu), x), Permuted(b, perm);
    PermutedMatVec(a, perm, x);
    MatVecAssoc(LowerPart(lu), UpperPart(lu), x);
    assert Permuted(MatVec(a, x), perm) == MatVec(LowerPart(lu), y);
    if Permuted(MatVec(a, x), perm) == pb { PermutedInjective(MatVec(a, x), b, perm); }
    LowerSystem(lu, pb, y);
    UpperSystem(lu, Forward(lu, pb, |lu|), x);
  }

  /** What the solve returns on any matrix: the one solution of LUx = Pb, or NaN in every
      component when L has a zero on its diagonal. */
  lemma SolveResultMeans(lu: Matrix, perm: seq<int>, b: Vector, x: Vector)
    requires IsSquare(lu) && |lu| == |perm| == |b| == |x| && IsPermutation(perm)
    ensures (exists t :: 0 <= t < |lu| && Entry(lu, t, t) == 0.0) ==>
              forall i :: 0 <= i < |lu| ==> SolveResult(lu, perm, b)[i] == NaN
    ensures (forall t :: 0 <= t < |lu| ==> Entry(lu, t, t) != 0.0) ==>
              (SolveResult(lu, perm, b) == Finite(x) <==>
                MatVec(LowerPart(lu), MatVec(UpperPart(lu), x)) == Permuted(b, perm))
  {
    hide MatVec, LowerPart, UpperPart, Forward, Backward, Entry, Permuted;
    if NonzeroDiagonal(lu, |lu|) {
      var pb := Permuted(b, perm);
      LowerSystem(lu, pb, MatVec(UpperPart(lu), x));
      UpperSystem(lu, Forward(lu, pb, |lu|), x);
      FiniteInjective(x, Solution(lu, perm, b));
    }
  }

  lemma FiniteInjective(u: Vector, v: Vector)
    requires |u| == |v|
    ensures Finite(u) == Finite(v) <==> u == v
  {
    if Finite(u) == Finite(v) {
      forall i | 0 <= i < |u| ensures u[i] == v[i] { assert Finite(u)[i] == Finite(v)[i]; }
    }
  }
}
