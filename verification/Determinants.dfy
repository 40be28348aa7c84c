/** The determinant, by expansion along the first column, and the laws that
    characterise it: linear in each row, negated by exchanging two rows, one on
    the identity. */
module Determinants {
  import opened Sums
  import opened Matrices
  import opened Permutations

  function Sign(k: int): real {
    if k % 2 == 0 then 1.0 else -1.0
  }

  function Without(rows: Matrix, k: nat): (r: Matrix)
    requires k < |rows|
    ensures |r| == |rows| - 1
  {
    rows[..k] + rows[k + 1..]
  }

  /** The k-th term of the expansion along column c. */
  function Cofactor(rows: Matrix, c: nat, k: nat): real
    requires k < |rows|
    decreases |rows|, 0
  {
    Sign(k) * Comp(rows[k], c) * Det(Without(rows, k), c + 1)
  }

  function Expansion(rows: Matrix, c: nat, k: nat): real
    requires k <= |rows|
    decreases |rows|, 1, k
  {
    if k == 0 then 0.0 else Expansion(rows, c, k - 1) + Cofactor(rows, c, k - 1)
  }

  /** The determinant of the square block of the given rows and as many columns
      starting at column c. */
  function Det(rows: Matrix, c: nat): real
    decreases |rows|, 2
  {
    if |rows| == 0 then 1.0 else Expansion(rows, c, |rows|)
  }

  function Cofactors(rows: Matrix, c: nat): int -> real {
    k => if 0 <= k < |rows| then Cofactor(rows, c, k) else 0.0
  }

  lemma {:induction false} ExpansionIsSum(rows: Matrix, c: nat, k: nat)
    requires k <= |rows|
    ensures Expansion(rows, c, k) == Sum(Cofactors(rows, c), k)
  {
    if k == 0 {
    } else {
      ExpansionIsSum(rows, c, k - 1);
    }
  }

  lemma DetIsSum(rows: Matrix, c: nat)
    requires 0 < |rows|
    ensures Det(rows, c) == Sum(Cofactors(rows, c), |rows|)
  {
    ExpansionIsSum(rows, c, |rows|);
  }

  function Determinant(m: Matrix): real {
    Det(m, 0)
  }

  // ----- congruence and linearity in one row

  lemma {:induction false} DetCong(a: Matrix, b: Matrix, c: nat)
    requires |a| == |b|
    requires forall i, j :: 0 <= i < |a| && c <= j < c + |a| ==> Comp(a[i], j) == Comp(b[i], j)
    ensures Det(a, c) == Det(b, c)
    decreases |a|
  {
    forall k | 0 <= k < |a| ensures Cofactors(a, c)(k) == Cofactors(b, c)(k) {
      DetCong(Without(a, k), Without(b, k), c + 1);
    }
    if a == [] {
    } else {
      SumCong(Cofactors(a, c), Cofactors(b, c), |a|);
      DetIsSum(a, c);
      DetIsSum(b, c);
    }
  }

  /** Removing another row commutes with replacing row r. */
  lemma WithoutAfterUpdate(rows: Matrix, r: nat, z: Vector, k: nat)
    requires r < |rows| && k < |rows|
    ensures k == r ==> Without(rows[r := z], k) == Without(rows, k)
    ensures k != r ==> Without(rows[r := z], k) == Without(rows, k)[(if r < k then r else r - 1) := z]
  {
  }

  lemma CofactorAfterUpdate(rows: Matrix, c: nat, r: nat, z: Vector, k: nat)
    requires r < |rows| && k < |rows|
    ensures k == r ==> Cofactor(rows[r := z], c, k) == Sign(k) * Comp(z, c) * Det(Without(rows, k), c + 1)
    ensures k != r ==>
              var w := Without(rows, k)[(if r < k then r else r - 1) := z];
              Cofactor(rows[r := z], c, k) == Sign(k) * Comp(rows[k], c) * Det(w, c + 1)
  {
    WithoutAfterUpdate(rows, r, z, k);
  }

  lemma {:induction false} CofactorRowLinear(rows: Matrix, c: nat, r: nat, x: Vector, s: real, y: Vector, t: real, z: Vector,
                                             k: nat)
    requires r < |rows| && k < |rows|
    requires forall j :: c <= j < c + |rows| ==> Comp(z, j) == Combine(s, Comp(x, j), t, Comp(y, j))
    ensures Cofactor(rows[r := z], c, k) == Combine(s, Cofactor(rows[r := x], c, k), t, Cofactor(rows[r := y], c, k))
    decreases |rows|, 0
  {
    CofactorAfterUpdate(rows, c, r, x, k);
    CofactorAfterUpdate(rows, c, r, y, k);
    CofactorAfterUpdate(rows, c, r, z, k);
    if k == r {
      var e := Det(Without(rows, k), c + 1);
      Distribute(Sign(k), Comp(z, c), e, s, Comp(x, c), t, Comp(y, c));
    } else {
      var w, r' := Without(rows, k), if r < k then r else r - 1;
      DetRowLinear(w, c + 1, r', x, s, y, t, z);
      Distribute(Sign(k) * Comp(rows[k], c), Det(w[r' := z], c + 1), 1.0,
                 s, Det(w[r' := x], c + 1), t, Det(w[r' := y], c + 1));
    }
  }

  lemma Distribute(p: real, z: real, q: real, s: real, x: real, t: real, y: real)
    requires z == Combine(s, x, t, y)
    ensures p * z * q == Combine(s, p * x * q, t, p * y * q)
  {
    assert p * z == s * (p * x) + t * (p * y);
  }

  lemma LinearSums(a: Matrix, s: real, b: Matrix, t: real, d: Matrix, c: nat)
    requires |a| == |b| == |d| > 0
    requires forall k :: 0 <= k < |a| ==> Cofactors(d, c)(k) == Combine(s, Cofactors(a, c)(k), t, Cofactors(b, c)(k))
    ensures Det(d, c) == Combine(s, Det(a, c), t, Det(b, c))
  {
    hide Combine;
    DetIsSum(a, c);
    DetIsSum(b, c);
    DetIsSum(d, c);
    SumLinear(Cofactors(a, c), s, Cofactors(b, c), t, Cofactors(d, c), |a|);
  }

  lemma {:induction false} DetRowLinear(rows: Matrix, c: nat, r: nat, x: Vector, s: real, y: Vector, t: real, z: Vector)
    requires r < |rows|
    requires forall j :: c <= j < c + |rows| ==> Comp(z, j) == Combine(s, Comp(x, j), t, Comp(y, j))
    ensures Det(rows[r := z], c) == Combine(s, Det(rows[r := x], c), t, Det(rows[r := y], c))
    decreases |rows|, 1
  {
    hide Combine;
    var a, b, d := rows[r := x], rows[r := y], rows[r := z];
    forall k | 0 <= k < |rows| ensures Cofactors(d, c)(k) == Combine(s, Cofactors(a, c)(k), t, Cofactors(b, c)(k)) {
      CofactorRowLinear(rows, c, r, x, s, y, t, z, k);
    }
    LinearSums(a, s, b, t, d, c);
  }

  // ----- exchanging rows

  lemma SumExchanged(f: int -> real, g: int -> real, n: nat, r: nat)
    requires r + 1 < n
    requires g(r) == -f(r + 1) && g(r + 1) == -f(r)
    requires forall k :: 0 <= k < n && k != r && k != r + 1 ==> g(k) == -f(k)
    ensures Sum(g, n) == -Sum(f, n)
  {
    SumLinear(f, -1.0, f, 0.0, g, r);
    var m := r + 2;
    assert Sum(g, m) == -Sum(f, m);
    while m < n
      invariant r + 2 <= m <= n
      invariant Sum(g, m) == -Sum(f, m)
    {
      m := m + 1;
    }
  }

  /** Removing a row away from an adjacent exchange leaves an adjacent exchange. */
  lemma WithoutAfterSwap(rows: Matrix, r: nat, k: nat)
    requires r + 1 < |rows| && k < |rows| && k != r && k != r + 1
    ensures var r' := if r < k then r else r - 1;
            Without(Swap(rows, r, r + 1), k) == Swap(Without(rows, k), r', r' + 1)
  {
  }

  lemma WithoutSwapped(rows: Matrix, r: nat)
    requires r + 1 < |rows|
    ensures Without(Swap(rows, r, r + 1), r) == Without(rows, r + 1)
    ensures Without(Swap(rows, r, r + 1), r + 1) == Without(rows, r)
  {
  }

  lemma CofactorAfterSwap(rows: Matrix, c: nat, r: nat, k: nat)
    requires r + 1 < |rows| && k < |rows| && k != r && k != r + 1
    requires var r' := if r < k then r else r - 1;
             Det(Swap(Without(rows, k), r', r' + 1), c + 1) == -Det(Without(rows, k), c + 1)
    ensures Cofactor(Swap(rows, r, r + 1), c, k) == -Cofactor(rows, c, k)
  {
    WithoutAfterSwap(rows, r, k);
    var s, e := Swap(rows, r, r + 1), Sign(k) * Comp(rows[k], c);
    assert Cofactor(s, c, k) == e * Det(Without(s, k), c + 1);
  }

  lemma CofactorsSwapped(rows: Matrix, c: nat, r: nat)
    requires r + 1 < |rows|
    ensures var s := Swap(rows, r, r + 1);
            Cofactor(s, c, r) == -Cofactor(rows, c, r + 1) && Cofactor(s, c, r + 1) == -Cofactor(rows, c, r)
  {
    WithoutSwapped(rows, r);
    assert Sign(r + 1) == -Sign(r);
  }

  lemma {:induction false} DetAdjacentSwap(rows: Matrix, c: nat, r: nat)
    requires r + 1 < |rows|
    ensures Det(Swap(rows, r, r + 1), c) == -Det(rows, c)
    decreases |rows|
  {
    var s := Swap(rows, r, r + 1);
    forall k | 0 <= k < |rows| && k != r && k != r + 1 ensures Cofactors(s, c)(k) == -Cofactors(rows, c)(k) {
      DetAdjacentSwap(Without(rows, k), c + 1, if r < k then r else r - 1);
      CofactorAfterSwap(rows, c, r, k);
    }
    CofactorsSwapped(rows, c, r);
    SumExchanged(Cofactors(rows, c), Cofactors(s, c), |rows|, r);
    DetIsSum(rows, c);
    DetIsSum(s, c);
  }

  lemma {:induction false} DetSwap(rows: Matrix, c: nat, i: nat, j: nat)
    requires i < j < |rows|
    ensures Det(Swap(rows, i, j), c) == -Det(rows, c)
    decreases j - i
  {
    if j == i + 1 {
      DetAdjacentSwap(rows, c, i);
    } else {
      var a := Swap(rows, i, i + 1);
      var b := Swap(a, i + 1, j);
      DetAdjacentSwap(rows, c, i);
      DetSwap(a, c, i + 1, j);
      DetAdjacentSwap(b, c, i);
      SwapByAdjacent(rows, i, j);
    }
  }

  lemma DetEqualRows(rows: Matrix, c: nat, i: nat, j: nat)
    requires i < j < |rows| && rows[i] == rows[j]
    ensures Det(rows, c) == 0.0
  {
    DetSwap(rows, c, i, j);
    assert Swap(rows, i, j) == rows;
  }

  // ----- elimination

  /** Adding a multiple of row 0 to another row keeps the determinant. */
  lemma DetAddMultiple(rows: Matrix, c: nat, r: nat, t: real, z: Vector)
    requires 0 < r < |rows|
    requires forall j :: c <= j < c + |rows| ==> Comp(z, j) == Comp(rows[r], j) + t * Comp(rows[0], j)
    ensures Det(rows[r := z], c) == Det(rows, c)
  {
    DetRowLinear(rows, c, r, rows[r], 1.0, rows[0], t, z);
    assert rows[r := rows[r]] == rows;
    DetEqualRows(rows[r := rows[0]], c, 0, r);
  }

  lemma {:induction false} DetEliminate(rows: Matrix, reduced: Matrix, c: nat, factor: int -> real, q: nat)
    requires |reduced| == |rows| && 0 < q <= |rows| && reduced[0] == rows[0]
    requires forall r, j :: 0 < r < |rows| && c <= j < c + |rows| ==>
               Comp(reduced[r], j) == Comp(rows[r], j) + factor(r) * Comp(rows[0], j)
    ensures Det(reduced[..q] + rows[q..], c) == Det(rows, c)
  {
    if q == 1 {
      assert reduced[..1] + rows[1..] == rows;
    } else {
      var before := reduced[..q - 1] + rows[q - 1..];
      DetEliminate(rows, reduced, c, factor, q - 1);
      DetAddMultiple(before, c, q - 1, factor(q - 1), reduced[q - 1]);
      assert before[q - 1 := reduced[q - 1]] == reduced[..q] + rows[q..];
    }
  }

  /** Expansion when only the first row has an entry in the first column. */
  lemma DetLeadingColumn(rows: Matrix, c: nat)
    requires 0 < |rows|
    requires forall r :: 0 < r < |rows| ==> Comp(rows[r], c) == 0.0
    ensures Det(rows, c) == Comp(rows[0], c) * Det(rows[1..], c + 1)
  {
    hide Det, Sum;
    DetIsSum(rows, c);
    SumSingle(Cofactors(rows, c), |rows|, 0);
    assert Without(rows, 0) == rows[1..];
  }

  function Reduced(rows: Matrix, c: nat, factor: int -> real): (r: Matrix)
    requires 0 < |rows|
    ensures |r| == |rows|
  {
    seq(|rows|, r requires 0 <= r < |rows| =>
      if r == 0 then rows[0] else seq(c + |rows|, j => Comp(rows[r], j) + factor(r) * Comp(rows[0], j)))
  }

  lemma DetReduced(rows: Matrix, c: nat, factor: int -> real)
    requires 0 < |rows|
    requires forall r :: 0 < r < |rows| ==> Comp(rows[r], c) + factor(r) * Comp(rows[0], c) == 0.0
    ensures Det(rows, c) == Comp(rows[0], c) * Det(Reduced(rows, c, factor)[1..], c + 1)
  {
    hide Det;
    var reduced := Reduced(rows, c, factor);
    DetEliminate(rows, reduced, c, factor, |rows|);
    assert reduced[..|rows|] + rows[|rows|..] == reduced;
    DetLeadingColumn(reduced, c);
  }

  /** One elimination step: the pivot factors out, leaving the Schur complement. */
  lemma DetSchur(rows: Matrix, rest: Matrix, c: nat, factor: int -> real)
    requires 0 < |rows| && |rest| == |rows| - 1
    requires forall r :: 0 < r < |rows| ==> Comp(rows[r], c) + factor(r) * Comp(rows[0], c) == 0.0
    requires forall r, j :: 0 <= r < |rest| && c < j < c + |rows| ==>
               Comp(rest[r], j) == Comp(rows[r + 1], j) + factor(r + 1) * Comp(rows[0], j)
    ensures Det(rows, c) == Comp(rows[0], c) * Det(rest, c + 1)
  {
    hide Det;
    DetReduced(rows, c, factor);
    DetCong(Reduced(rows, c, factor)[1..], rest, c + 1);
  }

  // ----- normalisation and the direct formulas for small sizes

  lemma {:induction false} DetUnitRows(rows: Matrix, n: nat, c: nat)
    requires |rows| + c == n
    requires forall r :: 0 <= r < |rows| ==> rows[r] == UnitVector(n, r + c)
    ensures Det(rows, c) == 1.0
    decreases |rows|
  {
    if rows == [] {
    } else {
      DetLeadingColumn(rows, c);
      DetUnitRows(rows[1..], n, c + 1);
    }
  }

  lemma DeterminantIdentity(n: nat)
    ensures Determinant(Identity(n)) == 1.0
  {
    DetUnitRows(Identity(n), n, 0);
  }

  lemma Det1(rows: Matrix, c: nat)
    requires |rows| == 1
    ensures Det(rows, c) == Comp(rows[0], c)
  {
    DetIsSum(rows, c);
    assert Det(Without(rows, 0), c + 1) == 1.0;
    assert Sum(Cofactors(rows, c), 1) == Cofactor(rows, c, 0);
  }

  lemma Det2(rows: Matrix, c: nat)
    requires |rows| == 2
    ensures Det(rows, c) == Comp(rows[0], c) * Comp(rows[1], c + 1) - Comp(rows[1], c) * Comp(rows[0], c + 1)
  {
    var f := Cofactors(rows, c);
    DetIsSum(rows, c);
    assert Sum(f, 2) == f(0) + f(1);
    Det1(Without(rows, 0), c + 1);
    Det1(Without(rows, 1), c + 1);
  }

  lemma Det3(rows: Matrix, c: nat)
    requires |rows| == 3
    ensures var a, b, d := rows[0], rows[1], rows[2];
            Det(rows, c) ==
              Comp(a, c) * (Comp(b, c + 1) * Comp(d, c + 2) - Comp(d, c + 1) * Comp(b, c + 2))
            - Comp(b, c) * (Comp(a, c + 1) * Comp(d, c + 2) - Comp(d, c + 1) * Comp(a, c + 2))
            + Comp(d, c) * (Comp(a, c + 1) * Comp(b, c + 2) - Comp(b, c + 1) * Comp(a, c + 2))
  {
    var f := Cofactors(rows, c);
    DetIsSum(rows, c);
    assert Sum(f, 3) == f(0) + f(1) + f(2);
    Det2(Without(rows, 0), c + 1);
    Det2(Without(rows, 1), c + 1);
    Det2(Without(rows, 2), c + 1);
  }

  /** The formulas written out for sizes one, two and three. */
  lemma DirectFormulas(m: Matrix)
    requires IsMatrix(m, |m|, |m|)
    ensures |m| == 1 ==> Determinant(m) == m[0][0]
    ensures |m| == 2 ==> Determinant(m) == m[0][0] * m[1][1] - m[1][0] * m[0][1]
    ensures |m| == 3 ==> (
      Determinant(m) == m[0][0] * m[1][1] * m[2][2] + m[1][0] * m[2][1] * m[0][2] + m[2][0] * m[0][1] * m[1][2]
                      - m[0][0] * m[2][1] * m[1][2] - m[1][0] * m[0][1] * m[2][2] - m[2][0] * m[1][1] * m[0][2])
  {
    if |m| == 1 {
      Det1(m, 0);
    } else if |m| == 2 {
      Det2(m, 0);
    } else if |m| == 3 {
      Det3(m, 0);
    }
  }
}
