/** The handedness Orthonormalize (viskores/VectorAnalysis.h) promises: when no input is
    dropped, the outputs are oriented as the inputs are. */
module Orientation {
  import opened Matrices
  import opened Sums
  import opened Determinants
  import opened GramSchmidt

  /** Adding a multiple of one row to another keeps the determinant. */
  lemma DetAddRow(rows: Matrix, r: nat, q: nat, t: real, z: Vector)
    requires r < |rows| && q < |rows| && q != r
    requires forall j :: 0 <= j < |rows| ==> Comp(z, j) == Combine(1.0, Comp(rows[r], j), t, Comp(rows[q], j))
    ensures Determinant(rows[r := z]) == Determinant(rows)
  {
    hide Det;
    DetRowLinear(rows, 0, r, rows[r], 1.0, rows[q], t, z);
    assert rows[r := rows[r]] == rows;
    var doubled := rows[r := rows[q]];
    assert doubled[q] == doubled[r];
    DetEqualRows(doubled, 0, if q < r then q else r, if q < r then r else q);
  }

  lemma ResidualEntry(n: nat, x: Vector, us: seq<Vector>, tolsqr: real, k: nat, j: nat)
    requires |x| == n && 0.0 <= tolsqr && Usable(n, us, tolsqr) && 0 < k <= |us| && j < n
    ensures Residual(n, x, us, tolsqr, k)[j]
         == Combine(1.0, Residual(n, x, us, tolsqr, k - 1)[j], -ProjectedDistance(x, us[k - 1]), us[k - 1][j])
  {
    hide Dot, ProjectedDistance;
  }

  /** Row i less its projections onto the rows before it. */
  lemma {:induction false} ResidualKeepsDeterminant(n: nat, m: Matrix, us: seq<Vector>, tolsqr: real, k: nat)
    requires |m| == n && |us| < n && m[..|us|] == us && |m[|us|]| == n
    requires 0.0 <= tolsqr && Usable(n, us, tolsqr) && k <= |us|
    ensures Determinant(m[|us| := Residual(n, m[|us|], us, tolsqr, k)]) == Determinant(m)
  {
    hide Determinant, Residual, MagnitudeSquared, Combine;
    var i := |us|;
    var x := m[i];
    if k == 0 {
      ResidualStart(n, x, us, tolsqr);
      assert m[i := x] == m;
    } else {
      ResidualKeepsDeterminant(n, m, us, tolsqr, k - 1);
      var before, z := m[i := Residual(n, x, us, tolsqr, k - 1)], Residual(n, x, us, tolsqr, k);
      assert before[k - 1] == m[..i][k - 1] == us[k - 1];
      var t := -ProjectedDistance(x, us[k - 1]);
      forall j | 0 <= j < n ensures Comp(z, j) == Combine(1.0, Comp(before[i], j), t, Comp(before[k - 1], j)) {
        ResidualEntry(n, x, us, tolsqr, k, j);
      }
      DetAddRow(before, i, k - 1, t, z);
      assert before[i := z] == m[i := z];
    }
  }

  lemma ResidualStart(n: nat, x: Vector, us: seq<Vector>, tolsqr: real)
    requires |x| == n && 0.0 <= tolsqr && Usable(n, us, tolsqr)
    ensures Residual(n, x, us, tolsqr, 0) == x
  {
  }

  /** While no input is dropped, the kept vectors followed by the inputs to come have the
      determinant of the inputs. */
  lemma {:induction false} KeptKeepsDeterminant(n: nat, inputs: seq<Vector>, tolsqr: real, i: nat)
    requires |inputs| == n && AllOf(n, inputs) && 0.0 <= tolsqr && i <= n
    requires |Kept(n, inputs, tolsqr, i)| == i
    ensures Determinant(Kept(n, inputs, tolsqr, i) + inputs[i..]) == Determinant(inputs)
  {
    hide Determinant, Residual, MagnitudeSquared, Kept;
    if i == 0 {
      KeptNone(n, inputs, tolsqr);
      assert [] + inputs[0..] == inputs;
    } else {
      KeptNext(n, inputs, tolsqr, i - 1);
      var us := Kept(n, inputs, tolsqr, i - 1);
      KeptKeepsDeterminant(n, inputs, tolsqr, i - 1);
      var m := us + inputs[i - 1..];
      assert m[..|us|] == us && m[i - 1] == inputs[i - 1];
      ResidualKeepsDeterminant(n, m, us, tolsqr, |us|);
      var r := Residual(n, inputs[i - 1], us, tolsqr, |us|);
      assert m[i - 1 := r] == us + [r] + inputs[i..];
    }
  }

  // ----- normalizing scales the determinant by a positive number

  lemma DetScaleRow(rows: Matrix, r: nat, s: real)
    requires r < |rows|
    ensures Determinant(rows[r := ScaleVec(s, rows[r])]) == s * Determinant(rows)
  {
    hide Det;
    var z := ScaleVec(s, rows[r]);
    forall j | 0 <= j < |rows| ensures Comp(z, j) == Combine(s, Comp(rows[r], j), 0.0, Comp(rows[r], j)) {
    }
    DetRowLinear(rows, 0, r, rows[r], s, rows[r], 0.0, z);
    assert rows[r := rows[r]] == rows;
  }

  /** The first k vectors normalized, the others as they are. */
  function NormalizedFirst(us: seq<Vector>, rsqrt: real -> real, k: nat): (m: Matrix)
    ensures |m| == |us|
  {
    seq(|us|, i requires 0 <= i < |us| => if i < k then Normalized(rsqrt, us[i]) else us[i])
  }

  lemma {:induction false} NormalizingScales(n: nat, us: seq<Vector>, tolsqr: real, rsqrt: real -> real, k: nat)
    returns (scale: real)
    requires 0.0 <= tolsqr && Usable(n, us, tolsqr) && ReciprocalRoot(rsqrt) && k <= |us|
    ensures 0.0 < scale && Determinant(NormalizedFirst(us, rsqrt, k)) == scale * Determinant(us)
  {
    hide Determinant, MagnitudeSquared;
    if k == 0 {
      scale := 1.0;
      assert NormalizedFirst(us, rsqrt, 0) == us;
    } else {
      var before := NormalizedFirst(us, rsqrt, k - 1);
      var c := rsqrt(MagnitudeSquared(us[k - 1]));
      var s := NormalizingScales(n, us, tolsqr, rsqrt, k - 1);
      assert 0.0 < c by { assert tolsqr < MagnitudeSquared(us[k - 1]); }
      DetScaleRow(before, k - 1, c);
      assert NormalizedFirst(us, rsqrt, k) == before[k - 1 := ScaleVec(c, us[k - 1])];
      scale := c * s;
      TimesPositive(c, s, Determinant(us));
    }
  }

  lemma TimesPositive(c: real, s: real, d: real)
    requires 0.0 < c && 0.0 < s
    ensures 0.0 < c * s && c * (s * d) == c * s * d
  {
  }

  lemma SignOfMultiple(s: real, d: real)
    requires 0.0 < s
    ensures 0.0 < s * d <==> 0.0 < d
    ensures s * d < 0.0 <==> d < 0.0
  {
    if 0.0 < d { assert 0.0 < s * d; }
    if d < 0.0 { assert 0.0 < s * -d; }
  }

  /** When no input is dropped, the kept vectors have the determinant of the inputs, and
      the outputs its sign: they have the same handedness. */
  lemma OutputsKeepHandedness(n: nat, inputs: seq<Vector>, tolsqr: real, rsqrt: real -> real, before: seq<Vector>)
    requires n == |inputs| == |before| && AllOf(n, inputs) && 0.0 <= tolsqr && ReciprocalRoot(rsqrt)
    requires |Kept(n, inputs, tolsqr, n)| == n
    ensures Determinant(Kept(n, inputs, tolsqr, n)) == Determinant(inputs)
    ensures var d := Determinant(OutputsAfter(n, inputs, tolsqr, rsqrt, before));
            (0.0 < d <==> 0.0 < Determinant(inputs)) && (d < 0.0 <==> Determinant(inputs) < 0.0)
  {
    hide Determinant, Kept, MagnitudeSquared;
    var us := Kept(n, inputs, tolsqr, n);
    KeptKeepsDeterminant(n, inputs, tolsqr, n);
    assert us + inputs[n..] == us;
    var scale := NormalizingScales(n, us, tolsqr, rsqrt, n);
    assert OutputsAfter(n, inputs, tolsqr, rsqrt, before) == NormalizedFirst(us, rsqrt, n);
    SignOfMultiple(scale, Determinant(inputs));
  }
}
