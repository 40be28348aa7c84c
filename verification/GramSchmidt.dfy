/** Orthonormalize (viskores/VectorAnalysis.h) over exact reals, with an exact
    reciprocal square root given as a function. */
module GramSchmidt {
  import opened Sums
  import opened Matrices
  import Singularity

  function MagnitudeSquared(v: Vector): real {
    Dot(v, v)
  }

  /** The coefficient of u in the projection of v onto it. */
  function ProjectedDistance(v: Vector, u: Vector): real
    requires MagnitudeSquared(u) != 0.0
  {
    Dot(u, v) / Dot(u, u)
  }

  function Project(v: Vector, u: Vector): (r: Vector)
    requires MagnitudeSquared(u) != 0.0
    ensures |r| == |u|
  {
    ScaleVec(ProjectedDistance(v, u), u)
  }

  predicate AllOf(n: nat, vs: seq<Vector>) {
    forall i :: 0 <= i < |vs| ==> |vs[i]| == n
  }

  /** Vectors of dimension n, each longer than the tolerance. */
  predicate Usable(n: nat, us: seq<Vector>, tolsqr: real) {
    forall i :: 0 <= i < |us| ==> |us[i]| == n && tolsqr < MagnitudeSquared(us[i])
  }

  /** x less its projections onto the first k of us. */
  function Residual(n: nat, x: Vector, us: seq<Vector>, tolsqr: real, k: nat): (r: Vector)
    requires |x| == n && 0.0 <= tolsqr && Usable(n, us, tolsqr) && k <= |us|
    ensures |r| == n
  {
    if k == 0 then x
    else Minus(Residual(n, x, us, tolsqr, k - 1), Project(x, us[k - 1]))
  }

  /** The vectors kept after the first i inputs. */
  function Kept(n: nat, inputs: seq<Vector>, tolsqr: real, i: nat): (us: seq<Vector>)
    requires AllOf(n, inputs) && 0.0 <= tolsqr && i <= |inputs|
    ensures |us| <= i && Usable(n, us, tolsqr)
  {
    if i == 0 then []
    else
      var us := Kept(n, inputs, tolsqr, i - 1);
      var r := Residual(n, inputs[i - 1], us, tolsqr, |us|);
      if MagnitudeSquared(r) <= tolsqr then us else us + [r]
  }

  function Normalized(rsqrt: real -> real, u: Vector): Vector {
    ScaleVec(rsqrt(MagnitudeSquared(u)), u)
  }

  /** What a call leaves in the outputs, given what they held before: the kept vectors
      normalized, one zero vector if there is room for it, and then the old contents. */
  function OutputsAfter(n: nat, inputs: seq<Vector>, tolsqr: real, rsqrt: real -> real, before: seq<Vector>)
    : (after: seq<Vector>)
    requires AllOf(n, inputs) && 0.0 <= tolsqr
    ensures |after| == |before|
  {
    var us := Kept(n, inputs, tolsqr, |inputs|);
    seq(|before|, i requires 0 <= i < |before| =>
      if i < |us| then Normalized(rsqrt, us[i]) else if i == |us| then Singularity.Zeros(n) else before[i])
  }

  /** The loop that takes the projections of x onto the kept vectors away from it. */
  method SubtractProjections(n: nat, x: Vector, u: array<Vector>, j: nat, ghost tolsqr: real)
    requires |x| == n && 0.0 <= tolsqr && j < u.Length && Usable(n, u[..j], tolsqr)
    modifies u
    ensures u[..j] == old(u[..j]) && u[j] == Residual(n, x, u[..j], tolsqr, j)
  {
    hide Dot, MagnitudeSquared, Project;
    ghost var us := u[..j];
    u[j] := x;
    for k := 0 to j
      invariant u[..j] == us && u[j] == Residual(n, x, us, tolsqr, k)
    {
      assert u[k] == us[k];
      u[j] := Minus(u[j], Project(x, u[k]));
    }
  }

  /** The last loop: it counts with i but writes at j each time. */
  method ZeroRest(n: nat, outputs: array<Vector>, j: nat)
    requires j <= n == outputs.Length
    modifies outputs
    ensures j < n ==> outputs[j] == Singularity.Zeros(n)
    ensures forall k :: 0 <= k < n && k != j ==> outputs[k] == old(outputs[k])
  {
    for i := j to n
      invariant j < i ==> outputs[j] == Singularity.Zeros(n)
      invariant forall k :: 0 <= k < n && k != j ==> outputs[k] == old(outputs[k])
    {
      outputs[j] := Singularity.Zeros(n);
    }
  }

  lemma KeptNone(n: nat, inputs: seq<Vector>, tolsqr: real)
    requires AllOf(n, inputs) && 0.0 <= tolsqr
    ensures Kept(n, inputs, tolsqr, 0) == []
  {
  }

  lemma KeptNext(n: nat, inputs: seq<Vector>, tolsqr: real, i: nat)
    requires AllOf(n, inputs) && 0.0 <= tolsqr && i < |inputs|
    ensures var us := Kept(n, inputs, tolsqr, i);
            var r := Residual(n, inputs[i], us, tolsqr, |us|);
            Kept(n, inputs, tolsqr, i + 1) == if MagnitudeSquared(r) <= tolsqr then us else us + [r]
  {
  }

  method Orthonormalize(n: nat, inputs: seq<Vector>, outputs: array<Vector>, tol: real, rsqrt: real -> real)
    returns (j: nat)
    requires |inputs| == n == outputs.Length && AllOf(n, inputs)
    modifies outputs
    ensures j == |Kept(n, inputs, tol * tol, n)|
    ensures outputs[..] == OutputsAfter(n, inputs, tol * tol, rsqrt, old(outputs[..]))
  {
    hide Dot, MagnitudeSquared, Residual, Kept;
    var tolsqr := tol * tol;
    assert 0.0 <= tolsqr;
    j := 0;
    KeptNone(n, inputs, tolsqr);
    var u := new Vector[n](_ => []);
    for i := 0 to n
      invariant j <= i && u[..j] == Kept(n, inputs, tolsqr, i)
      invariant forall k :: 0 <= k < j ==> outputs[k] == Normalized(rsqrt, u[k])
      invariant forall k :: j <= k < n ==> outputs[k] == old(outputs[k])
    {
      ghost var us := u[..j];
      KeptNext(n, inputs, tolsqr, i);
      SubtractProjections(n, inputs[i], u, j, tolsqr);
      assert forall k :: 0 <= k < j ==> u[k] == us[k];
      var magsqr := MagnitudeSquared(u[j]);
      if magsqr <= tolsqr {
        continue;
      }
      outputs[j] := ScaleVec(rsqrt(magsqr), u[j]);
      assert u[..j + 1] == us + [u[j]];
      j := j + 1;
    }
    ZeroRest(n, outputs, j);
  }

  // ----- the kept vectors are orthogonal

  predicate Orthogonal(us: seq<Vector>) {
    forall a, b :: 0 <= a < |us| && 0 <= b < |us| && a != b ==> Dot(us[a], us[b]) == 0.0
  }

  lemma DotResidualStep(n: nat, x: Vector, us: seq<Vector>, tolsqr: real, k: nat, w: Vector)
    requires |x| == n && 0.0 <= tolsqr && Usable(n, us, tolsqr) && k < |us|
    ensures Dot(w, Residual(n, x, us, tolsqr, k + 1))
         == Dot(w, Residual(n, x, us, tolsqr, k)) - ProjectedDistance(x, us[k]) * Dot(w, us[k])
  {
    hide Dot;
    DotMinus(w, Residual(n, x, us, tolsqr, k), Project(x, us[k]));
    DotScale(w, ProjectedDistance(x, us[k]), us[k]);
  }

  /** The first k projections remove the components along the first k vectors, and
      leave the components along the others alone. */
  lemma {:induction false} DotResidual(n: nat, x: Vector, us: seq<Vector>, tolsqr: real, k: nat, m: nat)
    requires |x| == n && 0.0 <= tolsqr && Usable(n, us, tolsqr) && Orthogonal(us) && k <= |us| && m < |us|
    ensures Dot(us[m], Residual(n, x, us, tolsqr, k)) == if m < k then 0.0 else Dot(us[m], x)
  {
    hide Dot;
    if k == 0 {
    } else {
      DotResidual(n, x, us, tolsqr, k - 1, m);
      DotResidualStep(n, x, us, tolsqr, k - 1, us[m]);
      if m == k - 1 { assert tolsqr < MagnitudeSquared(us[m]); }
    }
  }

  lemma {:induction false} KeptOrthogonal(n: nat, inputs: seq<Vector>, tolsqr: real, i: nat)
    requires AllOf(n, inputs) && 0.0 <= tolsqr && i <= |inputs|
    ensures Orthogonal(Kept(n, inputs, tolsqr, i))
  {
    hide Dot, Residual;
    if i == 0 {
    } else {
      KeptOrthogonal(n, inputs, tolsqr, i - 1);
      var us := Kept(n, inputs, tolsqr, i - 1);
      var r := Residual(n, inputs[i - 1], us, tolsqr, |us|);
      forall m | 0 <= m < |us| ensures Dot(us[m], r) == 0.0 && Dot(r, us[m]) == 0.0 {
        DotResidual(n, inputs[i - 1], us, tolsqr, |us|, m);
        DotComm(us[m], r);
      }
    }
  }

  // ----- so the outputs are orthonormal

  ghost predicate ReciprocalRoot(rsqrt: real -> real) {
    forall m: real :: 0.0 < m ==> 0.0 < rsqrt(m) && rsqrt(m) * rsqrt(m) * m == 1.0
  }

  lemma DotScaledBoth(a: real, u: Vector, b: real, v: Vector)
    requires |u| == |v|
    ensures Dot(ScaleVec(a, u), ScaleVec(b, v)) == a * b * Dot(u, v)
  {
    hide Dot;
    DotScale(ScaleVec(a, u), b, v);
    DotComm(ScaleVec(a, u), v);
    DotScale(v, a, u);
    DotComm(u, v);
    assert b * (a * Dot(u, v)) == a * b * Dot(u, v);
  }

  lemma NormalizedOrthonormal(n: nat, us: seq<Vector>, tolsqr: real, rsqrt: real -> real, a: nat, b: nat)
    requires 0.0 <= tolsqr && Usable(n, us, tolsqr) && Orthogonal(us) && ReciprocalRoot(rsqrt) && a < |us| && b < |us|
    ensures Dot(Normalized(rsqrt, us[a]), Normalized(rsqrt, us[b])) == if a == b then 1.0 else 0.0
  {
    hide Dot;
    DotScaledBoth(rsqrt(MagnitudeSquared(us[a])), us[a], rsqrt(MagnitudeSquared(us[b])), us[b]);
    assert tolsqr < MagnitudeSquared(us[a]);
  }

  /** The outputs that the result counts have length one and are pairwise orthogonal. */
  lemma OutputsOrthonormal(n: nat, inputs: seq<Vector>, tolsqr: real, rsqrt: real -> real, before: seq<Vector>,
                           a: nat, b: nat)
    requires n == |inputs| == |before| && AllOf(n, inputs) && 0.0 <= tolsqr && ReciprocalRoot(rsqrt)
    requires a < |Kept(n, inputs, tolsqr, n)| && b < |Kept(n, inputs, tolsqr, n)|
    ensures var after := OutputsAfter(n, inputs, tolsqr, rsqrt, before);
            Dot(after[a], after[b]) == if a == b then 1.0 else 0.0
  {
    hide Dot, Kept;
    KeptOrthogonal(n, inputs, tolsqr, n);
    NormalizedOrthonormal(n, Kept(n, inputs, tolsqr, n), tolsqr, rsqrt, a, b);
  }

  // ----- spans

  /** The sum of c[k] vs[k]. */
  function Combination(n: nat, c: Vector, vs: seq<Vector>): (r: Vector)
    requires |c| == |vs|
    ensures |r| == n
  {
    seq(n, j => Dot(Column(vs, j), c))
  }

  ghost predicate InSpan(n: nat, v: Vector, vs: seq<Vector>) {
    exists c: Vector :: |c| == |vs| && v == Combination(n, c, vs)
  }

  lemma CombinationAppend(n: nat, c: Vector, vs: seq<Vector>, s: real, v: Vector)
    requires |c| == |vs| && |v| == n
    ensures Combination(n, c + [s], vs + [v]) == PlusVec(Combination(n, c, vs), ScaleVec(s, v))
  {
    var left, right := Combination(n, c + [s], vs + [v]), PlusVec(Combination(n, c, vs), ScaleVec(s, v));
    forall j | 0 <= j < n ensures left[j] == right[j] {
      assert Column(vs + [v], j) == Column(vs, j) + [v[j]];
      var f, g := DotTerms(Column(vs, j) + [v[j]], c + [s]), DotTerms(Column(vs, j), c);
      SumCong(f, g, |c|);
      assert Sum(f, |c| + 1) == Sum(f, |c|) + v[j] * s;
    }
  }

  lemma CombinationMinusScaled(n: nat, c: Vector, d: Vector, s: real, vs: seq<Vector>)
    requires |c| == |d| == |vs|
    ensures Combination(n, Minus(c, ScaleVec(s, d)), vs) == Minus(Combination(n, c, vs), ScaleVec(s, Combination(n, d, vs)))
  {
    var left := Combination(n, Minus(c, ScaleVec(s, d)), vs);
    var right := Minus(Combination(n, c, vs), ScaleVec(s, Combination(n, d, vs)));
    forall j | 0 <= j < n ensures left[j] == right[j] {
      DotMinus(Column(vs, j), c, ScaleVec(s, d));
      DotScale(Column(vs, j), s, d);
    }
  }

  lemma SpanExtend(n: nat, v: Vector, vs: seq<Vector>, w: Vector)
    requires |w| == n && InSpan(n, v, vs)
    ensures InSpan(n, v, vs + [w])
  {
    var c: Vector :| |c| == |vs| && v == Combination(n, c, vs);
    CombinationAppend(n, c, vs, 0.0, w);
    assert v == Combination(n, c + [0.0], vs + [w]);
  }

  lemma SpanLast(n: nat, vs: seq<Vector>, w: Vector)
    requires |w| == n
    ensures InSpan(n, w, vs + [w])
  {
    var zero := Singularity.Zeros(|vs|);
    CombinationAppend(n, zero, vs, 1.0, w);
    forall j | 0 <= j < n ensures Dot(Column(vs, j), zero) == 0.0 { SumZero(DotTerms(Column(vs, j), zero), |vs|); }
    assert w == Combination(n, zero + [1.0], vs + [w]);
  }

  lemma SpanMinusScaled(n: nat, v: Vector, w: Vector, s: real, vs: seq<Vector>)
    requires |v| == |w| == n && InSpan(n, v, vs) && InSpan(n, w, vs)
    ensures InSpan(n, Minus(v, ScaleVec(s, w)), vs)
  {
    var c: Vector :| |c| == |vs| && v == Combination(n, c, vs);
    var d: Vector :| |d| == |vs| && w == Combination(n, d, vs);
    CombinationMinusScaled(n, c, d, s, vs);
    assert Minus(v, ScaleVec(s, w)) == Combination(n, Minus(c, ScaleVec(s, d)), vs);
  }

  lemma {:induction false} ResidualInSpan(n: nat, x: Vector, us: seq<Vector>, tolsqr: real, k: nat, vs: seq<Vector>)
    requires |x| == n && 0.0 <= tolsqr && Usable(n, us, tolsqr) && k <= |us|
    requires InSpan(n, x, vs) && forall m :: 0 <= m < |us| ==> InSpan(n, us[m], vs)
    ensures InSpan(n, Residual(n, x, us, tolsqr, k), vs)
  {
    hide InSpan, Dot;
    if k == 0 {
    } else {
      ResidualInSpan(n, x, us, tolsqr, k - 1, vs);
      SpanMinusScaled(n, Residual(n, x, us, tolsqr, k - 1), us[k - 1], ProjectedDistance(x, us[k - 1]), vs);
    }
  }

  /** Every kept vector lies in the span of the inputs read so far. */
  lemma {:induction false} KeptInSpan(n: nat, inputs: seq<Vector>, tolsqr: real, i: nat, k: nat)
    requires AllOf(n, inputs) && 0.0 <= tolsqr && i <= |inputs| && k < |Kept(n, inputs, tolsqr, i)|
    ensures InSpan(n, Kept(n, inputs, tolsqr, i)[k], inputs[..i])
    decreases i
  {
    hide InSpan, Dot, Residual, MagnitudeSquared;
    var us, x := Kept(n, inputs, tolsqr, i - 1), inputs[i - 1];
    var vs := inputs[..i - 1];
    assert inputs[..i] == vs + [x];
    forall m | 0 <= m < |us| ensures InSpan(n, us[m], vs + [x]) {
      KeptInSpan(n, inputs, tolsqr, i - 1, m);
      SpanExtend(n, us[m], vs, x);
    }
    SpanLast(n, vs, x);
    ResidualInSpan(n, x, us, tolsqr, |us|, vs + [x]);
  }

  /** x is a combination of us plus a remainder no longer than the tolerance. */
  ghost predicate Approximated(n: nat, x: Vector, us: seq<Vector>, tolsqr: real) {
    exists c: Vector, rest: Vector ::
      |c| == |us| && |rest| == n && MagnitudeSquared(rest) <= tolsqr && x == PlusVec(Combination(n, c, us), rest)
  }

  function Coefficients(n: nat, x: Vector, us: seq<Vector>, tolsqr: real, k: nat): (c: Vector)
    requires |x| == n && 0.0 <= tolsqr && Usable(n, us, tolsqr) && k <= |us|
    ensures |c| == k
  {
    if k == 0 then [] else Coefficients(n, x, us, tolsqr, k - 1) + [ProjectedDistance(x, us[k - 1])]
  }

  lemma Regroup(a: Vector, p: Vector, r: Vector)
    requires |a| == |p| == |r|
    ensures PlusVec(a, r) == PlusVec(PlusVec(a, p), Minus(r, p))
  {
  }

  lemma {:induction false} ResidualIsRest(n: nat, x: Vector, us: seq<Vector>, tolsqr: real, k: nat)
    requires |x| == n && 0.0 <= tolsqr && Usable(n, us, tolsqr) && k <= |us|
    ensures x == PlusVec(Combination(n, Coefficients(n, x, us, tolsqr, k), us[..k]), Residual(n, x, us, tolsqr, k))
  {
    if k == 0 {
      EmptyCombination(n, us[..0]);
      assert PlusVec(Combination(n, [], us[..0]), x) == x;
    } else {
      hide Dot, Combination, PlusVec, Minus, ScaleVec, ProjectedDistance;
      ResidualIsRest(n, x, us, tolsqr, k - 1);
      var c, s := Coefficients(n, x, us, tolsqr, k - 1), ProjectedDistance(x, us[k - 1]);
      CombinationAppend(n, c, us[..k - 1], s, us[k - 1]);
      assert us[..k] == us[..k - 1] + [us[k - 1]];
      Regroup(Combination(n, c, us[..k - 1]), ScaleVec(s, us[k - 1]), Residual(n, x, us, tolsqr, k - 1));
    }
  }

  lemma EmptyCombination(n: nat, vs: seq<Vector>)
    requires |vs| == 0
    ensures Combination(n, [], vs) == Singularity.Zeros(n)
  {
  }

  lemma ApproximatedExtend(n: nat, x: Vector, us: seq<Vector>, tolsqr: real, w: Vector)
    requires |w| == n && Approximated(n, x, us, tolsqr)
    ensures Approximated(n, x, us + [w], tolsqr)
  {
    hide MagnitudeSquared, Dot;
    var c: Vector, rest: Vector :|
      |c| == |us| && |rest| == n && MagnitudeSquared(rest) <= tolsqr && x == PlusVec(Combination(n, c, us), rest);
    CombinationAppend(n, c, us, 0.0, w);
    assert Combination(n, c + [0.0], us + [w]) == Combination(n, c, us);
    assert x == PlusVec(Combination(n, c + [0.0], us + [w]), rest);
  }

  /** The input just read is approximated, kept or not. */
  lemma LastApproximated(n: nat, inputs: seq<Vector>, tolsqr: real, i: nat)
    requires AllOf(n, inputs) && 0.0 <= tolsqr && i < |inputs|
    ensures Approximated(n, inputs[i], Kept(n, inputs, tolsqr, i + 1), tolsqr)
  {
    hide Dot, MagnitudeSquared, Combination, Residual;
    var us, x := Kept(n, inputs, tolsqr, i), inputs[i];
    var c, r := Coefficients(n, x, us, tolsqr, |us|), Residual(n, x, us, tolsqr, |us|);
    ResidualIsRest(n, x, us, tolsqr, |us|);
    assert us[..|us|] == us;
    if MagnitudeSquared(r) <= tolsqr {
      assert x == PlusVec(Combination(n, c, us), r);
    } else {
      var zero := Singularity.Zeros(n);
      ZeroMagnitude(n);
      CombinationAppend(n, c, us, 1.0, r);
      assert ScaleVec(1.0, r) == r;
      assert PlusVec(x, zero) == x;
      assert x == PlusVec(Combination(n, c + [1.0], us + [r]), zero);
    }
  }

  lemma ZeroMagnitude(n: nat)
    ensures MagnitudeSquared(Singularity.Zeros(n)) == 0.0
  {
    SumZero(DotTerms(Singularity.Zeros(n), Singularity.Zeros(n)), n);
  }

  /** Every input read is, up to the tolerance, a combination of the vectors kept. */
  lemma {:induction false} InputsApproximated(n: nat, inputs: seq<Vector>, tolsqr: real, i: nat, k: nat)
    requires AllOf(n, inputs) && 0.0 <= tolsqr && k < i <= |inputs|
    ensures Approximated(n, inputs[k], Kept(n, inputs, tolsqr, i), tolsqr)
    decreases i
  {
    hide Approximated, Dot, Residual, MagnitudeSquared;
    if k == i - 1 {
      LastApproximated(n, inputs, tolsqr, k);
    } else {
      InputsApproximated(n, inputs, tolsqr, i - 1, k);
      var us := Kept(n, inputs, tolsqr, i - 1);
      ApproximatedExtend(n, inputs[k], us, tolsqr, Residual(n, inputs[i - 1], us, tolsqr, |us|));
    }
  }

  // ----- handedness

  lemma {:induction false} OrthogonalToAll(n: nat, x: Vector, us: seq<Vector>, tolsqr: real, k: nat, w: Vector)
    requires |x| == n && 0.0 <= tolsqr && Usable(n, us, tolsqr) && k <= |us|
    requires forall m :: 0 <= m < |us| ==> Dot(w, us[m]) == 0.0
    ensures Dot(w, Residual(n, x, us, tolsqr, k)) == Dot(w, x)
  {
    hide Dot;
    if k == 0 {
    } else {
      OrthogonalToAll(n, x, us, tolsqr, k - 1, w);
      DotResidualStep(n, x, us, tolsqr, k - 1, w);
    }
  }

  /** A vector kept for an input points to the same side as the input. */
  lemma KeptFacesInput(n: nat, inputs: seq<Vector>, tolsqr: real, i: nat)
    requires AllOf(n, inputs) && 0.0 <= tolsqr && i < |inputs|
    requires |Kept(n, inputs, tolsqr, i + 1)| > |Kept(n, inputs, tolsqr, i)|
    ensures var us := Kept(n, inputs, tolsqr, i + 1);
            Dot(us[|us| - 1], inputs[i]) == MagnitudeSquared(us[|us| - 1]) > tolsqr
  {
    hide Dot, Residual;
    var us, x := Kept(n, inputs, tolsqr, i), inputs[i];
    var r := Residual(n, x, us, tolsqr, |us|);
    KeptOrthogonal(n, inputs, tolsqr, i + 1);
    var all := Kept(n, inputs, tolsqr, i + 1);
    forall m | 0 <= m < |us| ensures Dot(r, us[m]) == 0.0 {
      assert all[|us|] == r && all[m] == us[m];
    }
    OrthogonalToAll(n, x, us, tolsqr, |us|, r);
  }

  // ----- the same of the outputs

  lemma {:induction false} KeptPrefix(n: nat, inputs: seq<Vector>, tolsqr: real, i: nat, k: nat)
    requires AllOf(n, inputs) && 0.0 <= tolsqr && i <= k <= |inputs|
    ensures Kept(n, inputs, tolsqr, i) <= Kept(n, inputs, tolsqr, k)
  {
    hide Kept, MagnitudeSquared, Residual, Usable;
    if i == k {
    } else {
      KeptPrefix(n, inputs, tolsqr, i, k - 1);
      KeptNext(n, inputs, tolsqr, k - 1);
    }
  }

  /** The input for which the a-th vector was kept. */
  lemma {:induction false} KeptFor(n: nat, inputs: seq<Vector>, tolsqr: real, k: nat, a: nat) returns (i: nat)
    requires AllOf(n, inputs) && 0.0 <= tolsqr && k <= |inputs| && a < |Kept(n, inputs, tolsqr, k)|
    ensures i < k && |Kept(n, inputs, tolsqr, i)| == a && |Kept(n, inputs, tolsqr, i + 1)| == a + 1
  {
    hide Kept, MagnitudeSquared, Residual;
    if k == 0 {
      KeptNone(n, inputs, tolsqr);
    } else {
      KeptNext(n, inputs, tolsqr, k - 1);
      if a < |Kept(n, inputs, tolsqr, k - 1)| {
        i := KeptFor(n, inputs, tolsqr, k - 1, a);
      } else {
        i := k - 1;
      }
    }
  }

  lemma CombinationScaled(n: nat, s: real, c: Vector, vs: seq<Vector>)
    requires |c| == |vs|
    ensures Combination(n, ScaleVec(s, c), vs) == ScaleVec(s, Combination(n, c, vs))
  {
    var left, right := Combination(n, ScaleVec(s, c), vs), ScaleVec(s, Combination(n, c, vs));
    forall j | 0 <= j < n ensures left[j] == right[j] { DotScale(Column(vs, j), s, c); }
  }

  lemma SpanScaled(n: nat, s: real, v: Vector, vs: seq<Vector>)
    requires InSpan(n, v, vs)
    ensures InSpan(n, ScaleVec(s, v), vs)
  {
    hide Combination;
    var c: Vector :| |c| == |vs| && v == Combination(n, c, vs);
    CombinationScaled(n, s, c, vs);
  }

  /** An output lies in the span of the inputs up to the one it was kept for, and points
      to that input's side. */
  lemma OutputFacesInput(n: nat, inputs: seq<Vector>, tolsqr: real, rsqrt: real -> real, before: seq<Vector>, i: nat)
    requires n == |inputs| == |before| && AllOf(n, inputs) && 0.0 <= tolsqr && ReciprocalRoot(rsqrt) && i < n
    requires |Kept(n, inputs, tolsqr, i)| < |Kept(n, inputs, tolsqr, i + 1)|
    ensures var output := OutputsAfter(n, inputs, tolsqr, rsqrt, before)[|Kept(n, inputs, tolsqr, i)|];
            && |output| == n && InSpan(n, output, inputs[..i + 1])
            && 0.0 < Dot(output, inputs[i])
  {
    hide Dot, Residual, MagnitudeSquared, InSpan, Kept;
    KeptNext(n, inputs, tolsqr, i);
    var a, us := |Kept(n, inputs, tolsqr, i)|, Kept(n, inputs, tolsqr, i + 1);
    KeptPrefix(n, inputs, tolsqr, i + 1, n);
    var u := us[a];
    assert Kept(n, inputs, tolsqr, n)[a] == u;
    KeptInSpan(n, inputs, tolsqr, i + 1, a);
    KeptFacesInput(n, inputs, tolsqr, i);
    var c := rsqrt(MagnitudeSquared(u));
    SpanScaled(n, c, u, inputs[..i + 1]);
    DotComm(ScaleVec(c, u), inputs[i]);
    DotScale(inputs[i], c, u);
    DotComm(inputs[i], u);
    TimesPositive(c, Dot(u, inputs[i]));
  }

  lemma TimesPositive(x: real, y: real)
    requires 0.0 < x && 0.0 < y
    ensures 0.0 < x * y
  {
  }

  /** Every output the result counts, with the input it was kept for. */
  lemma OutputsFaceInputs(n: nat, inputs: seq<Vector>, tolsqr: real, rsqrt: real -> real, before: seq<Vector>, a: nat)
    returns (i: nat)
    requires n == |inputs| == |before| && AllOf(n, inputs) && 0.0 <= tolsqr && ReciprocalRoot(rsqrt)
    requires a < |Kept(n, inputs, tolsqr, n)|
    ensures i < n && |Kept(n, inputs, tolsqr, i)| == a && |Kept(n, inputs, tolsqr, i + 1)| == a + 1
    ensures var output := OutputsAfter(n, inputs, tolsqr, rsqrt, before)[a];
            && |output| == n && InSpan(n, output, inputs[..i + 1])
            && 0.0 < Dot(output, inputs[i])
  {
    hide Dot, InSpan, Kept;
    i := KeptFor(n, inputs, tolsqr, n, a);
    OutputFacesInput(n, inputs, tolsqr, rsqrt, before, i);
  }

  // ----- whether the first output is parallel to the first input

  /** The first input longer than the tolerance, or the number of inputs if none is. */
  function FirstLong(inputs: seq<Vector>, tolsqr: real): (k: nat)
    ensures k <= |inputs|
    ensures forall i :: 0 <= i < k ==> MagnitudeSquared(inputs[i]) <= tolsqr
    ensures k < |inputs| ==> tolsqr < MagnitudeSquared(inputs[k])
  {
    if inputs == [] || tolsqr < MagnitudeSquared(inputs[0]) then 0 else 1 + FirstLong(inputs[1..], tolsqr)
  }

  /** The first vector kept is the first input longer than the tolerance. */
  lemma {:induction false} FirstKept(n: nat, inputs: seq<Vector>, tolsqr: real, i: nat)
    requires AllOf(n, inputs) && 0.0 <= tolsqr && i <= |inputs|
    ensures var us, k := Kept(n, inputs, tolsqr, i), FirstLong(inputs, tolsqr);
            if i <= k then us == [] else 0 < |us| && us[0] == inputs[k]
  {
    hide MagnitudeSquared;
    if i == 0 {
    } else {
      FirstKept(n, inputs, tolsqr, i - 1);
      assert Residual(n, inputs[i - 1], [], tolsqr, 0) == inputs[i - 1];
    }
  }

  /** One is a multiple of the other; the zero vector is parallel to every vector. */
  ghost predicate Parallel(u: Vector, v: Vector) {
    exists s: real, t: real :: (s != 0.0 || t != 0.0) && ScaleVec(s, u) == ScaleVec(t, v)
  }

  lemma ParallelSelf(u: Vector)
    ensures Parallel(u, u)
  {
    assert ScaleVec(1.0, u) == ScaleVec(1.0, u);
  }

  lemma ZeroParallel(n: nat, v: Vector)
    requires |v| == n
    ensures Parallel(Singularity.Zeros(n), v)
  {
    assert ScaleVec(1.0, Singularity.Zeros(n)) == ScaleVec(0.0, v);
  }

  lemma ScaleTwice(s: real, c: real, u: Vector)
    ensures ScaleVec(s, ScaleVec(c, u)) == ScaleVec(s * c, u)
  {
    forall i | 0 <= i < |u| ensures ScaleVec(s, ScaleVec(c, u))[i] == ScaleVec(s * c, u)[i] {
      assert s * (c * u[i]) == s * c * u[i];
    }
  }

  lemma ScaleBack(r: real, c: real, u: Vector)
    requires r * c == 1.0
    ensures ScaleVec(r, ScaleVec(c, u)) == u
  {
    ScaleTwice(r, c, u);
    assert ScaleVec(1.0, u) == u;
  }

  lemma ParallelTo(c: real, u: Vector, v: Vector)
    requires c != 0.0 && Parallel(u, v)
    ensures Parallel(ScaleVec(c, u), v)
  {
    hide ScaleVec;
    var s, t :| (s != 0.0 || t != 0.0) && ScaleVec(s, u) == ScaleVec(t, v);
    ScaleTwice(s / c, c, u);
    assert s / c * c == s;
  }

  lemma ParallelScaled(c: real, u: Vector, v: Vector)
    requires c != 0.0
    ensures Parallel(ScaleVec(c, u), v) <==> Parallel(u, v)
  {
    hide Parallel;
    if Parallel(ScaleVec(c, u), v) {
      var r := 1.0 / c;
      ScaleBack(r, c, u);
      ParallelTo(r, ScaleVec(c, u), v);
    }
    if Parallel(u, v) { ParallelTo(c, u, v); }
  }

  /** The first output is parallel to the first input exactly when no input is longer
      than the tolerance, or the first that is happens to be parallel to it; so always
      when the first input itself is longer than the tolerance. */
  lemma FirstOutputParallelIff(n: nat, inputs: seq<Vector>, tolsqr: real, rsqrt: real -> real, before: seq<Vector>)
    requires 0 < n == |inputs| == |before| && AllOf(n, inputs) && 0.0 <= tolsqr && ReciprocalRoot(rsqrt)
    ensures var first, k := OutputsAfter(n, inputs, tolsqr, rsqrt, before)[0], FirstLong(inputs, tolsqr);
            && (Parallel(first, inputs[0]) <==> k == n || Parallel(inputs[k], inputs[0]))
            && (tolsqr < MagnitudeSquared(inputs[0]) ==> Parallel(first, inputs[0]))
  {
    hide Kept, Parallel, MagnitudeSquared;
    var k := FirstLong(inputs, tolsqr);
    FirstKept(n, inputs, tolsqr, n);
    ParallelSelf(inputs[0]);
    if k == n {
      ZeroParallel(n, inputs[0]);
    } else {
      ParallelScaled(rsqrt(MagnitudeSquared(inputs[k])), inputs[k], inputs[0]);
    }
  }

  /** A short first input, and the first output points elsewhere. */
  lemma FirstOutputAstray(rsqrt: real -> real, before: seq<Vector>)
    requires |before| == 2 && ReciprocalRoot(rsqrt)
    ensures var inputs := [[0.1, 0.0], [0.0, 1.0]];
            AllOf(2, inputs) && !Parallel(OutputsAfter(2, inputs, 0.25, rsqrt, before)[0], inputs[0])
  {
    hide OutputsAfter, MagnitudeSquared, ReciprocalRoot;
    var u, v := [0.1, 0.0], [0.0, 1.0];
    Dot2(u);
    Dot2(v);
    assert FirstLong([u, v], 0.25) == 1;
    FirstOutputParallelIff(2, [u, v], 0.25, rsqrt, before);
    forall s: real, t: real | ScaleVec(s, v) == ScaleVec(t, u) ensures s == 0.0 && t == 0.0 {
      assert ScaleVec(s, v)[0] == ScaleVec(t, u)[0] && ScaleVec(s, v)[1] == ScaleVec(t, u)[1];
    }
  }

  lemma Dot2(v: Vector)
    requires |v| == 2
    ensures MagnitudeSquared(v) == v[0] * v[0] + v[1] * v[1]
  {
    assert Sum(DotTerms(v, v), 2) == DotTerms(v, v)(0) + DotTerms(v, v)(1);
  }

  // ----- whether the result is the number of outputs that are nonzero to within the tolerance

  function CountLong(vs: seq<Vector>, tolsqr: real): nat {
    if vs == [] then 0
    else
      var last := |vs| - 1;
      CountLong(vs[..last], tolsqr) + if tolsqr < MagnitudeSquared(vs[last]) then 1 else 0
  }

  lemma {:induction false} CountLongZero(vs: seq<Vector>, tolsqr: real)
    ensures CountLong(vs, tolsqr) == 0 <==> forall i :: 0 <= i < |vs| ==> MagnitudeSquared(vs[i]) <= tolsqr
  {
    hide MagnitudeSquared;
    if vs == [] {
    } else {
      var last := |vs| - 1;
      CountLongZero(vs[..last], tolsqr);
      assert vs == vs[..last] + [vs[last]];
    }
  }

  lemma NormalizedUnit(u: Vector, rsqrt: real -> real)
    requires 0.0 < MagnitudeSquared(u) && ReciprocalRoot(rsqrt)
    ensures MagnitudeSquared(Normalized(rsqrt, u)) == 1.0
  {
    hide Dot;
    var c := rsqrt(MagnitudeSquared(u));
    DotScaledBoth(c, u, c, u);
  }

  /** The squared length of each output: one, then zero, then as it was. */
  lemma OutputLength(n: nat, inputs: seq<Vector>, tolsqr: real, rsqrt: real -> real, before: seq<Vector>, i: nat)
    requires AllOf(n, inputs) && 0.0 <= tolsqr && ReciprocalRoot(rsqrt) && i < |before|
    ensures var output, j := OutputsAfter(n, inputs, tolsqr, rsqrt, before)[i], |Kept(n, inputs, tolsqr, |inputs|)|;
            MagnitudeSquared(output) == if i < j then 1.0 else if i == j then 0.0 else MagnitudeSquared(before[i])
  {
    hide Kept, MagnitudeSquared, Normalized, ReciprocalRoot;
    var us := Kept(n, inputs, tolsqr, |inputs|);
    if i < |us| {
      assert tolsqr < MagnitudeSquared(us[i]);
      NormalizedUnit(us[i], rsqrt);
    }
    ZeroMagnitude(n);
  }

  lemma {:induction false} CountOutputs(n: nat, inputs: seq<Vector>, tolsqr: real, rsqrt: real -> real,
                                        before: seq<Vector>, m: nat)
    requires AllOf(n, inputs) && 0.0 <= tolsqr && ReciprocalRoot(rsqrt) && m <= |before|
    ensures var after, j := OutputsAfter(n, inputs, tolsqr, rsqrt, before), |Kept(n, inputs, tolsqr, |inputs|)|;
            CountLong(after[..m], tolsqr)
              == (if 1.0 <= tolsqr then 0 else if m <= j then m else j)
               + (if m <= j then 0 else CountLong(before[j + 1..m], tolsqr))
  {
    hide Kept, MagnitudeSquared, ReciprocalRoot, OutputsAfter, Usable;
    if m == 0 {
    } else {
      CountOutputs(n, inputs, tolsqr, rsqrt, before, m - 1);
      OutputLength(n, inputs, tolsqr, rsqrt, before, m - 1);
      var after, j := OutputsAfter(n, inputs, tolsqr, rsqrt, before), |Kept(n, inputs, tolsqr, |inputs|)|;
      assert after[..m][..m - 1] == after[..m - 1];
      if j + 1 < m {
        assert before[j + 1..m][..m - 1 - (j + 1)] == before[j + 1..m - 1];
      }
    }
  }

  /** The result is the number of outputs longer than the tolerance, below one, exactly
      when no output after the one that is zeroed was longer than it before the call. A
      tolerance of one or more counts no unit vector. */
  lemma ResultCountsLongIff(n: nat, inputs: seq<Vector>, tolsqr: real, rsqrt: real -> real, before: seq<Vector>)
    requires n == |inputs| == |before| && AllOf(n, inputs) && 0.0 <= tolsqr && ReciprocalRoot(rsqrt)
    ensures var after, j := OutputsAfter(n, inputs, tolsqr, rsqrt, before), |Kept(n, inputs, tolsqr, n)|;
            var count, rest := CountLong(after, tolsqr), if j < n then before[j + 1..] else [];
            && (tolsqr < 1.0 ==> (count == j <==> forall i :: j < i < n ==> MagnitudeSquared(before[i]) <= tolsqr))
            && (1.0 <= tolsqr ==> count == CountLong(rest, tolsqr))
  {
    hide OutputsAfter, Kept, CountLong, MagnitudeSquared;
    CountOutputs(n, inputs, tolsqr, rsqrt, before, n);
    var after, j := OutputsAfter(n, inputs, tolsqr, rsqrt, before), |Kept(n, inputs, tolsqr, n)|;
    assert after[..n] == after;
    var rest := if j < n then before[j + 1..] else [];
    CountLongZero(rest, tolsqr);
    if j < n {
      assert before[j + 1..n] == rest;
      assert forall i :: j < i < n ==> before[i] == rest[i - (j + 1)];
    }
  }

  /** Three zero inputs: nothing is kept, and the old third output stays and counts. */
  lemma OutputLeftOver(tolsqr: real, rsqrt: real -> real, before: seq<Vector>)
    requires 0.0 <= tolsqr && |before| == 3 && tolsqr < MagnitudeSquared(before[2]) && ReciprocalRoot(rsqrt)
    ensures var zero := Singularity.Zeros(3);
            var after := OutputsAfter(3, [zero, zero, zero], tolsqr, rsqrt, before);
            && Kept(3, [zero, zero, zero], tolsqr, 3) == []
            && after[2] == before[2] != zero
            && 0 < CountLong(after, tolsqr)
  {
    hide Kept, CountLong, MagnitudeSquared;
    var zero := Singularity.Zeros(3);
    var inputs := [zero, zero, zero];
    ZeroMagnitude(3);
    FirstKept(3, inputs, tolsqr, 3);
    CountLongZero(OutputsAfter(3, inputs, tolsqr, rsqrt, before), tolsqr);
  }
}
