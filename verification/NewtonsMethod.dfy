/** Newton's method on exact reals (viskores/NewtonsMethod.h): each step solves
    one linear system with the factorization of Matrix.h. */
module NewtonsMethod {
  import opened Arithmetic
  import opened Matrices
  import opened LUP
  import opened LUPSolve
  import opened MatrixMethods
  import Singularity

  datatype Result = Result(valid: bool, converged: bool, solution: Vector)

  /** At x the functors return a matrix and a vector of size n. */
  predicate ShapedAt(jacobian: Vector -> Matrix, evaluate: Vector -> Vector, n: nat, x: Vector) {
    |x| == n ==> IsMatrix(jacobian(x), n, n) && |evaluate(x)| == n
  }

  ghost predicate Shaped(jacobian: Vector -> Matrix, evaluate: Vector -> Vector, n: nat) {
    forall x: Vector :: ShapedAt(jacobian, evaluate, n, x)
  }

  predicate AllBelow(d: Vector, bound: real) {
    forall i :: 0 <= i < |d| ==> Abs(d[i]) < bound
  }

  /** The solution of J d = r. */
  function Delta(j: Matrix, r: Vector, eps: real): (d: Vector)
    requires IsSquare(j) && |r| == |j| && 0.0 < eps && Factor(j, eps).valid
    ensures |d| == |j|
  {
    FactorUsable(j, eps);
    Solution(Factor(j, eps).lu, Factor(j, eps).perm, r)
  }

  lemma DeltaIff(j: Matrix, r: Vector, eps: real, v: Vector)
    requires IsSquare(j) && |r| == |j| == |v| && 0.0 < eps && Factor(j, eps).valid
    ensures MatVec(j, v) == r <==> v == Delta(j, r, eps)
  {
    SolutionIffSolves(j, eps, r, v);
  }

  /** The step taken from x. */
  ghost function Step(jacobian: Vector -> Matrix, evaluate: Vector -> Vector, desired: Vector, x: Vector, eps: real)
    : (d: Vector)
    requires Shaped(jacobian, evaluate, |x|) && |desired| == |x| && 0.0 < eps && Factor(jacobian(x), eps).valid
    ensures |d| == |x|
  {
    assert ShapedAt(jacobian, evaluate, |x|, x);
    Delta(jacobian(x), Minus(evaluate(x), desired), eps)
  }

  /** The result of at most the given number of further iterations from x. */
  ghost function Run(jacobian: Vector -> Matrix, evaluate: Vector -> Vector, desired: Vector, x: Vector,
                     difference: real, eps: real, iterations: nat, valid: bool): (r: Result)
    requires Shaped(jacobian, evaluate, |x|) && |desired| == |x| && 0.0 < eps
    ensures |r.solution| == |x|
    decreases iterations
  {
    if iterations == 0 then Result(valid, false, x)
    else if !Factor(jacobian(x), eps).valid then Result(false, false, x)
    else
      var d := Step(jacobian, evaluate, desired, x, eps);
      var x' := Minus(x, d);
      if AllBelow(d, difference) then Result(true, true, x')
      else Run(jacobian, evaluate, desired, x', difference, eps, iterations - 1, true)
  }

  lemma RunEnds(jacobian: Vector -> Matrix, evaluate: Vector -> Vector, desired: Vector, x: Vector,
                difference: real, eps: real, valid: bool)
    requires Shaped(jacobian, evaluate, |x|) && |desired| == |x| && 0.0 < eps
    ensures Run(jacobian, evaluate, desired, x, difference, eps, 0, valid) == Result(valid, false, x)
  {
  }

  /** One iteration of the run. */
  lemma RunUnfolds(jacobian: Vector -> Matrix, evaluate: Vector -> Vector, desired: Vector, x: Vector,
                   difference: real, eps: real, iterations: nat, valid: bool)
    requires Shaped(jacobian, evaluate, |x|) && |desired| == |x| && 0.0 < eps && 0 < iterations
    ensures IsSquare(jacobian(x)) && |jacobian(x)| == |evaluate(x)| == |x|
    ensures var r := Run(jacobian, evaluate, desired, x, difference, eps, iterations, valid);
            if !Factor(jacobian(x), eps).valid then r == Result(false, false, x)
            else
              var d := Delta(jacobian(x), Minus(evaluate(x), desired), eps);
              r == if AllBelow(d, difference) then Result(true, true, Minus(x, d))
                   else Run(jacobian, evaluate, desired, Minus(x, d), difference, eps, iterations - 1, true)
  {
    hide AllBelow, Minus, Factor, Delta;
    assert ShapedAt(jacobian, evaluate, |x|, x);
  }

  /** The loop that tests every component of the step. */
  method HasConverged(deltaX: Vector, convergeDifference: real) returns (converged: bool)
    ensures converged == AllBelow(deltaX, convergeDifference)
  {
    converged := true;
    for index := 0 to |deltaX|
      invariant converged <==> AllBelow(deltaX[..index], convergeDifference)
    {
      converged := converged && Abs(deltaX[index]) < convergeDifference;
      assert deltaX[..index + 1] == deltaX[..index] + [deltaX[index]];
    }
    assert deltaX[..|deltaX|] == deltaX;
  }

  method Newton(jacobianEvaluator: Vector -> Matrix, functionEvaluator: Vector -> Vector,
                desiredFunctionOutput: Vector, initialGuess: Vector,
                convergeDifference: real, maxIterations: int, eps: real)
    returns (result: Result)
    requires Shaped(jacobianEvaluator, functionEvaluator, |initialGuess|)
    requires |desiredFunctionOutput| == |initialGuess| && 0.0 < eps
    ensures result == Run(jacobianEvaluator, functionEvaluator, desiredFunctionOutput, initialGuess,
                          convergeDifference, eps, if maxIterations < 0 then 0 else maxIterations, false)
  {
    hide Run, Shaped, Delta, Factor, MatVec, Minus, AllBelow, Singularity.Singular, SolveResult, IsSquare;
    var n := |initialGuess|;
    ghost var total := if maxIterations < 0 then 0 else maxIterations;
    ghost var final := Run(jacobianEvaluator, functionEvaluator, desiredFunctionOutput, initialGuess,
                           convergeDifference, eps, total, false);
    var x, valid, converged, iteration := initialGuess, false, false, 0;
    while !converged && iteration < maxIterations
      invariant 0 <= iteration <= total && |x| == n
      invariant final == if converged then Result(valid, true, x)
                         else Run(jacobianEvaluator, functionEvaluator, desiredFunctionOutput, x,
                                  convergeDifference, eps, total - iteration, valid)
      decreases maxIterations - iteration
    {
      RunUnfolds(jacobianEvaluator, functionEvaluator, desiredFunctionOutput, x,
                 convergeDifference, eps, total - iteration, valid);
      var jacobian := jacobianEvaluator(x);
      var difference := Minus(functionEvaluator(x), desiredFunctionOutput);
      var deltaX;
      deltaX, valid := SolveLinearSystem(jacobian, difference, eps);
      if !valid {
        break;
      }
      var d := Values(deltaX);
      DeltaIff(jacobian, difference, eps, d);
      x := Minus(x, d);
      converged := HasConverged(d, convergeDifference);
      iteration := iteration + 1;
    }
    RunEnds(jacobianEvaluator, functionEvaluator, desiredFunctionOutput, x, convergeDifference, eps, valid);
    result := Result(valid, converged, x);
  }

  // ----- affine functions are solved in one step

  /** At x the function is the affine one with matrix j and offset c, j its Jacobian. */
  predicate AffineAt(jacobian: Vector -> Matrix, evaluate: Vector -> Vector, j: Matrix, c: Vector, x: Vector) {
    |x| == |j| == |c| ==> jacobian(x) == j && evaluate(x) == PlusVec(MatVec(j, x), c)
  }

  ghost predicate IsAffine(jacobian: Vector -> Matrix, evaluate: Vector -> Vector, j: Matrix, c: Vector) {
    IsSquare(j) && |c| == |j| && forall x: Vector :: AffineAt(jacobian, evaluate, j, c, x)
  }

  lemma StepBack(u: Vector, c: Vector, desired: Vector)
    requires |u| == |c| == |desired|
    ensures PlusVec(Minus(u, Minus(PlusVec(u, c), desired)), c) == desired
  {
  }

  lemma MinusMinus(x: Vector, d: Vector)
    requires |x| == |d|
    ensures Minus(x, Minus(x, d)) == d
  {
  }

  lemma MinusZeros(x: Vector)
    ensures Minus(x, Singularity.Zeros(|x|)) == x
  {
  }

  /** One step from anywhere lands on a point with the desired value. */
  lemma AffineStep(jacobian: Vector -> Matrix, evaluate: Vector -> Vector, j: Matrix, c: Vector, desired: Vector,
                   x: Vector, eps: real)
    requires Shaped(jacobian, evaluate, |x|) && |desired| == |x| == |j| && 0.0 < eps
    requires IsAffine(jacobian, evaluate, j, c) && Factor(j, eps).valid
    ensures jacobian(x) == j
    ensures evaluate(Minus(x, Step(jacobian, evaluate, desired, x, eps))) == desired
  {
    hide Delta, Factor, MatVec, Minus, PlusVec;
    assert AffineAt(jacobian, evaluate, j, c, x);
    var d := Step(jacobian, evaluate, desired, x, eps);
    assert AffineAt(jacobian, evaluate, j, c, Minus(x, d));
    DeltaIff(j, Minus(evaluate(x), desired), eps, d);
    MatVecMinus(j, x, d);
    StepBack(MatVec(j, x), c, desired);
  }

  /** From a point with the desired value the step is zero. */
  lemma ZeroStep(j: Matrix, v: Vector, desired: Vector, eps: real)
    requires IsSquare(j) && |v| == |desired| == |j| && 0.0 < eps && Factor(j, eps).valid
    requires v == desired
    ensures Delta(j, Minus(v, desired), eps) == Singularity.Zeros(|j|)
  {
    var zero, r := Singularity.Zeros(|j|), Minus(v, desired);
    forall i | 0 <= i < |j| ensures MatVec(j, zero)[i] == r[i] {
      Sums.SumZero(DotTerms(j[i], zero), |j|);
    }
    assert MatVec(j, zero) == r;
    DeltaIff(j, r, eps, zero);
  }

  /** Once the value is the desired one, further iterations keep the point. */
  lemma {:induction false} AffineStays(
      jacobian: Vector -> Matrix, evaluate: Vector -> Vector, j: Matrix, c: Vector, desired: Vector,
      x: Vector, difference: real, eps: real, iterations: nat)
    requires Shaped(jacobian, evaluate, |x|) && |desired| == |x| == |j| && 0.0 < eps
    requires IsAffine(jacobian, evaluate, j, c) && Factor(j, eps).valid && evaluate(x) == desired
    ensures Run(jacobian, evaluate, desired, x, difference, eps, iterations, true)
         == Result(true, 0 < iterations && (0.0 < difference || |x| == 0), x)
    decreases iterations
  {
    hide Delta, Factor, MatVec, Minus, PlusVec;
    if iterations == 0 {
    } else {
      assert AffineAt(jacobian, evaluate, j, c, x);
      ZeroStep(j, evaluate(x), desired, eps);
      MinusZeros(x);
      if difference <= 0.0 && 0 < |x| {
        assert !(Abs(Singularity.Zeros(|j|)[0]) < difference);
        AffineStays(jacobian, evaluate, j, c, desired, x, difference, eps, iterations - 1);
      }
    }
  }

  /** The Jacobian of an affine function need be factored only once: the first step
      is exact, and the second one converges. */
  lemma AffineExact(jacobian: Vector -> Matrix, evaluate: Vector -> Vector, j: Matrix, c: Vector, desired: Vector,
                    x: Vector, difference: real, eps: real, iterations: nat, valid: bool)
    requires Shaped(jacobian, evaluate, |x|) && |desired| == |x| == |j| && 0.0 < eps
    requires IsAffine(jacobian, evaluate, j, c) && Factor(j, eps).valid && 0 < iterations
    ensures var r := Run(jacobian, evaluate, desired, x, difference, eps, iterations, valid);
            && r.valid
            && evaluate(r.solution) == desired
            && (0.0 < difference && 2 <= iterations ==> r.converged)
  {
    hide Delta, Factor, MatVec, Minus, PlusVec, AllBelow;
    AffineStep(jacobian, evaluate, j, c, desired, x, eps);
    var d := Step(jacobian, evaluate, desired, x, eps);
    if !AllBelow(d, difference) {
      AffineStays(jacobian, evaluate, j, c, desired, Minus(x, d), difference, eps, iterations - 1);
    }
  }

  // ----- what the result means for any function

  /** Every component changes by less than the bound. */
  predicate MovesLess(x: Vector, x': Vector, bound: real)
    requires |x| == |x'|
  {
    forall i :: 0 <= i < |x| ==> -bound < x[i] - x'[i] < bound
  }

  lemma BelowIffMovesLess(x: Vector, d: Vector, bound: real)
    requires |d| == |x|
    ensures AllBelow(d, bound) <==> MovesLess(x, Minus(x, d), bound)
  {
    var x' := Minus(x, d);
    assert forall i :: 0 <= i < |x| ==> x[i] - x'[i] == d[i];
  }

  /** x' is the exact Newton step from x: J(x) (x - x') = f(x) - desired. */
  ghost predicate IsStep(jacobian: Vector -> Matrix, evaluate: Vector -> Vector, desired: Vector,
                         x: Vector, x': Vector, eps: real)
    requires Shaped(jacobian, evaluate, |x|) && |desired| == |x| == |x'| && 0.0 < eps
  {
    assert ShapedAt(jacobian, evaluate, |x|, x);
    Factor(jacobian(x), eps).valid && MatVec(jacobian(x), Minus(x, x')) == Minus(evaluate(x), desired)
  }

  lemma DeltaIsStep(jacobian: Vector -> Matrix, evaluate: Vector -> Vector, desired: Vector, x: Vector, eps: real)
    requires Shaped(jacobian, evaluate, |x|) && |desired| == |x| && 0.0 < eps && Factor(jacobian(x), eps).valid
    ensures IsMatrix(jacobian(x), |x|, |x|) && |evaluate(x)| == |x|
    ensures var d := Delta(jacobian(x), Minus(evaluate(x), desired), eps);
            IsStep(jacobian, evaluate, desired, x, Minus(x, d), eps)
  {
    hide Delta, Factor, MatVec;
    assert ShapedAt(jacobian, evaluate, |x|, x);
    var d := Delta(jacobian(x), Minus(evaluate(x), desired), eps);
    DeltaIff(jacobian(x), Minus(evaluate(x), desired), eps, d);
    MinusMinus(x, d);
  }

  /** Consecutive points are Newton steps, and no step but the last is small. */
  ghost predicate IsPath(jacobian: Vector -> Matrix, evaluate: Vector -> Vector, desired: Vector,
                         difference: real, eps: real, xs: seq<Vector>)
    requires Shaped(jacobian, evaluate, |desired|) && 0.0 < eps
  {
    && 0 < |xs| && (forall i :: 0 <= i < |xs| ==> |xs[i]| == |desired|)
    && (forall i :: 0 <= i < |xs| - 1 ==> IsStep(jacobian, evaluate, desired, xs[i], xs[i + 1], eps))
    && (forall i :: 0 <= i < |xs| - 2 ==> !MovesLess(xs[i], xs[i + 1], difference))
  }

  /** Why the path ends and what is returned: a small step, a singular Jacobian, or no
      iterations left. The flag is valid's first value. */
  ghost predicate Ends(jacobian: Vector -> Matrix, difference: real, eps: real, iterations: nat, flag: bool,
                       xs: seq<Vector>, r: Result)
    requires 0 < |xs| && forall i :: 0 <= i < |xs| ==> |xs[i]| == |xs[0]|
  {
    var m := |xs| - 1;
    var small := 0 < m && MovesLess(xs[m - 1], xs[m], difference);
    && m <= iterations && r.solution == xs[m]
    && (if small then r.valid && r.converged
        else if m == iterations then r.valid == (0 < m || flag) && !r.converged
        else !Factor(jacobian(xs[m]), eps).valid && !r.valid && !r.converged)
  }

  /** The run, told without the functions that compute it. */
  lemma {:induction false} RunIsPath(jacobian: Vector -> Matrix, evaluate: Vector -> Vector, desired: Vector,
                                     x: Vector, difference: real, eps: real, iterations: nat, valid: bool)
    returns (xs: seq<Vector>)
    requires Shaped(jacobian, evaluate, |x|) && |desired| == |x| && 0.0 < eps
    ensures IsPath(jacobian, evaluate, desired, difference, eps, xs) && xs[0] == x
    ensures Ends(jacobian, difference, eps, iterations, valid, xs,
                 Run(jacobian, evaluate, desired, x, difference, eps, iterations, valid))
    decreases iterations
  {
    hide Shaped, Delta, Factor, Minus, AllBelow, IsStep, MovesLess, Run;
    if iterations == 0 {
      RunEnds(jacobian, evaluate, desired, x, difference, eps, valid);
      xs := [x];
    } else {
      RunUnfolds(jacobian, evaluate, desired, x, difference, eps, iterations, valid);
      if Factor(jacobian(x), eps).valid {
        var d := Delta(jacobian(x), Minus(evaluate(x), desired), eps);
        var x' := Minus(x, d);
        DeltaIsStep(jacobian, evaluate, desired, x, eps);
        BelowIffMovesLess(x, d, difference);
        if AllBelow(d, difference) {
          xs := [x, x'];
        } else {
          var rest := RunIsPath(jacobian, evaluate, desired, x', difference, eps, iterations - 1, true);
          xs := [x] + rest;
          assert forall i :: 0 < i < |xs| ==> xs[i] == rest[i - 1];
        }
      } else {
        xs := [x];
      }
    }
  }

  /** Converged means valid, and that every component of the last step, an exact Newton
      step, moved less than the difference. */
  lemma ConvergedMeans(jacobian: Vector -> Matrix, evaluate: Vector -> Vector, desired: Vector,
                       x: Vector, difference: real, eps: real, iterations: nat, valid: bool)
    returns (last: Vector)
    requires Shaped(jacobian, evaluate, |x|) && |desired| == |x| && 0.0 < eps
    ensures var r := Run(jacobian, evaluate, desired, x, difference, eps, iterations, valid);
            r.converged ==>
              && r.valid && |last| == |r.solution| == |x|
              && IsStep(jacobian, evaluate, desired, last, r.solution, eps)
              && (forall i :: 0 <= i < |x| ==> -difference < last[i] - r.solution[i] < difference)
  {
    hide Run, Factor, IsStep;
    var xs := RunIsPath(jacobian, evaluate, desired, x, difference, eps, iterations, valid);
    last := if 2 <= |xs| then xs[|xs| - 2] else x;
  }

  /** Valid without convergence, after at least one iteration, means that some component
      of the last step moved at least the difference. */
  lemma UnconvergedMeans(jacobian: Vector -> Matrix, evaluate: Vector -> Vector, desired: Vector,
                         x: Vector, difference: real, eps: real, iterations: nat, valid: bool)
    returns (last: Vector)
    requires Shaped(jacobian, evaluate, |x|) && |desired| == |x| && 0.0 < eps
    ensures var r := Run(jacobian, evaluate, desired, x, difference, eps, iterations, valid);
            0 < iterations && r.valid && !r.converged ==>
              && |last| == |r.solution| == |x|
              && IsStep(jacobian, evaluate, desired, last, r.solution, eps)
              && exists i :: 0 <= i < |x| && (last[i] - r.solution[i] <= -difference || difference <= last[i] - r.solution[i])
  {
    hide Run, Factor, IsStep;
    var xs := RunIsPath(jacobian, evaluate, desired, x, difference, eps, iterations, valid);
    last := if 2 <= |xs| then xs[|xs| - 2] else x;
  }
}
