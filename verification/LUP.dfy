/** What the in-place Crout factorization of viskores/Matrix.h computes, as
    functions on values, and the facts every iteration keeps. */
module LUP {
  import opened Arithmetic
  import opened Sums
  import opened Matrices
  import opened Permutations

  predicate IsSquare(m: Matrix) {
    IsMatrix(m, |m|, |m|)
  }

  /** The state the factorization updates. */
  datatype Factorization = Factorization(lu: Matrix, perm: seq<int>, parity: real, valid: bool)

  /** Among rows k..upto, the first whose entry in column k is largest in magnitude. */
  function PivotRow(m: Matrix, k: nat, upto: nat): (r: nat)
    requires k < upto <= |m|
    ensures k <= r < upto
    ensures forall i :: k <= i < upto ==> Abs(Entry(m, i, k)) <= Abs(Entry(m, r, k))
    ensures forall i :: k <= i < r ==> Abs(Entry(m, i, k)) < Abs(Entry(m, r, k))
  {
    if upto == k + 1 then k
    else
      var r := PivotRow(m, k, upto - 1);
      if Abs(Entry(m, r, k)) < Abs(Entry(m, upto - 1, k)) then upto - 1 else r
  }

  /** Bring the pivot to row k, or give up when it is below the threshold. */
  function FindPivot(f: Factorization, k: nat, eps: real): (g: Factorization)
    requires k < |f.lu| == |f.perm|
    ensures |g.lu| == |g.perm| == |f.lu|
  {
    var r := PivotRow(f.lu, k, |f.lu|);
    if Abs(Entry(f.lu, r, k)) < eps then f.(valid := false)
    else if r == k then f
    else f.(lu := Swap(f.lu, r, k), perm := Swap(f.perm, r, k), parity := -f.parity)
  }

  function EliminatedEntry(m: Matrix, k: nat, i: nat, j: nat): real
    requires Entry(m, k, k) != 0.0
  {
    var r := 1.0 / Entry(m, k, k);
    if i == k && k < j then Entry(m, k, j) * r
    else if k < i && k < j then Entry(m, i, j) - Entry(m, i, k) * (Entry(m, k, j) * r)
    else Entry(m, i, j)
  }

  /** Row k of U, and the update of the rows and columns after k. */
  function Eliminate(m: Matrix, k: nat): (r: Matrix)
    requires Entry(m, k, k) != 0.0
    ensures IsSquare(r) && |r| == |m|
  {
    seq(|m|, i requires 0 <= i < |m| => seq(|m|, j requires 0 <= j < |m| => EliminatedEntry(m, k, i, j)))
  }

  function FindUpperTriangleElements(f: Factorization, k: nat): (g: Factorization)
    ensures |g.lu| == |f.lu| && g.perm == f.perm && g.parity == f.parity
  {
    if Entry(f.lu, k, k) == 0.0 then f.(valid := false) else f.(lu := Eliminate(f.lu, k))
  }

  /** One iteration of the factorization's loop. */
  function Advance(f: Factorization, k: nat, eps: real): (g: Factorization)
    requires k < |f.lu| == |f.perm|
    ensures |g.lu| == |g.perm| == |f.lu|
  {
    var p := FindPivot(f, k, eps);
    if p.valid then FindUpperTriangleElements(p, k) else p
  }

  /** The state after k iterations, the loop stopping at the first invalid one. */
  function Iterate(a: Matrix, eps: real, k: nat): (f: Factorization)
    requires k <= |a|
    ensures |f.lu| == |f.perm| == |a|
  {
    if k == 0 then Factorization(a, IdentityPermutation(|a|), 1.0, true)
    else
      var f := Iterate(a, eps, k - 1);
      if f.valid then Advance(f, k - 1, eps) else f
  }

  function Factor(a: Matrix, eps: real): (f: Factorization)
    ensures |f.lu| == |f.perm| == |a|
  {
    Iterate(a, eps, |a|)
  }

  // ----- L and U, both read from the one matrix

  function Lower(lu: Matrix, i: int, t: int): real {
    if t <= i then Entry(lu, i, t) else 0.0
  }

  function Upper(lu: Matrix, t: int, j: int): real {
    if t < j then Entry(lu, t, j) else if t == j then 1.0 else 0.0
  }

  function LUTerms(lu: Matrix, i: int, j: int): int -> real {
    t => Lower(lu, i, t) * Upper(lu, t, j)
  }

  /** The entry that k finished columns of L and rows of U, with the unfinished
      block, stand for. */
  function Represented(lu: Matrix, k: nat, i: int, j: int): real {
    Sum(LUTerms(lu, i, j), k) + if k <= i && k <= j then Entry(lu, i, j) else 0.0
  }

  ghost predicate Represents(a: Matrix, f: Factorization, k: nat) {
    && IsSquare(f.lu) && |f.lu| == |a| == |f.perm| && IsPermutation(f.perm)
    && (forall i, j :: 0 <= i < |a| && 0 <= j < |a| ==>
          Entry(a, f.perm[i], j) == Represented(f.lu, k, i, j))
  }

  predicate NonzeroDiagonal(lu: Matrix, k: nat) {
    forall t :: 0 <= t < k ==> Entry(lu, t, t) != 0.0
  }

  predicate DiagonalAtLeast(lu: Matrix, k: nat, eps: real) {
    forall t :: 0 <= t < k ==> eps <= Abs(Entry(lu, t, t))
  }

  // ----- the exchange keeps what the finished part represents

  lemma SwapRepresents(a: Matrix, f: Factorization, k: nat, r: nat)
    requires k < r < |a| && Represents(a, f, k)
    ensures Represents(a, f.(lu := Swap(f.lu, r, k), perm := Swap(f.perm, r, k), parity := -f.parity), k)
  {
    var lu' := Swap(f.lu, r, k);
    SwapPermutation(f.perm, r, k);
    forall i, j | 0 <= i < |a| && 0 <= j < |a|
      ensures Represented(lu', k, i, j) == Represented(f.lu, k, if i == k then r else if i == r then k else i, j)
    {
      SumCong(LUTerms(lu', i, j), LUTerms(f.lu, if i == k then r else if i == r then k else i, j), k);
    }
  }

  // ----- so does one elimination step, which finishes column k of L and row k of U

  lemma NewTerm(lu: Matrix, k: nat, i: nat, j: nat)
    requires IsSquare(lu) && k < |lu| && i < |lu| && j < |lu| && Entry(lu, k, k) != 0.0
    ensures LUTerms(Eliminate(lu, k), i, j)(k) + (if k < i && k < j then Entry(Eliminate(lu, k), i, j) else 0.0)
         == (if k <= i && k <= j then Entry(lu, i, j) else 0.0)
  {
    var d, r := Entry(lu, k, k), 1.0 / Entry(lu, k, k);
    if i == k && k < j {
      assert d * (Entry(lu, k, j) * r) == Entry(lu, k, j) * (d * r);
    }
  }

  lemma EliminateRepresents(a: Matrix, f: Factorization, k: nat)
    requires k < |a| && Represents(a, f, k) && Entry(f.lu, k, k) != 0.0
    ensures Represents(a, f.(lu := Eliminate(f.lu, k)), k + 1)
  {
    var lu' := Eliminate(f.lu, k);
    forall i, j | 0 <= i < |a| && 0 <= j < |a| ensures Represented(lu', k + 1, i, j) == Represented(f.lu, k, i, j) {
      SumCong(LUTerms(lu', i, j), LUTerms(f.lu, i, j), k);
      NewTerm(f.lu, k, i, j);
    }
  }

  lemma FindPivotRepresents(a: Matrix, f: Factorization, k: nat, eps: real)
    requires k < |a| && Represents(a, f, k) && f.valid && 0.0 < eps && FindPivot(f, k, eps).valid
    ensures Represents(a, FindPivot(f, k, eps), k)
    ensures eps <= Abs(Entry(FindPivot(f, k, eps).lu, k, k))
    ensures forall t :: 0 <= t < k ==> Entry(FindPivot(f, k, eps).lu, t, t) == Entry(f.lu, t, t)
  {
    var r := PivotRow(f.lu, k, |a|);
    if r != k { SwapRepresents(a, f, k, r); }
  }

  lemma EliminateKeepsDiagonal(m: Matrix, k: nat)
    requires k < |m| && IsSquare(m) && Entry(m, k, k) != 0.0
    ensures forall t :: 0 <= t <= k ==> Entry(Eliminate(m, k), t, t) == Entry(m, t, t)
  {
  }

  lemma StartRepresents(a: Matrix, eps: real)
    requires IsSquare(a)
    ensures Represents(a, Iterate(a, eps, 0), 0)
    ensures DiagonalAtLeast(Iterate(a, eps, 0).lu, 0, eps)
  {
    IdentityIsPermutation(|a|);
  }

  lemma AdvanceRepresents(a: Matrix, f: Factorization, k: nat, eps: real)
    requires k < |a| && Represents(a, f, k) && DiagonalAtLeast(f.lu, k, eps)
    requires f.valid && 0.0 < eps && Advance(f, k, eps).valid
    ensures Represents(a, Advance(f, k, eps), k + 1)
    ensures DiagonalAtLeast(Advance(f, k, eps).lu, k + 1, eps)
  {
    FindPivotRepresents(a, f, k, eps);
    var p := FindPivot(f, k, eps);
    EliminateRepresents(a, p, k);
    EliminateKeepsDiagonal(p.lu, k);
  }

  /** Every valid iteration leaves the same matrix represented, with one more
      finished column and row, and pivots no smaller than the threshold. */
  lemma {:induction false} IterateRepresents(a: Matrix, eps: real, k: nat)
    requires IsSquare(a) && k <= |a| && 0.0 < eps && Iterate(a, eps, k).valid
    ensures Represents(a, Iterate(a, eps, k), k)
    ensures DiagonalAtLeast(Iterate(a, eps, k).lu, k, eps)
  {
    hide Represents, DiagonalAtLeast, Advance;
    if k == 0 {
      StartRepresents(a, eps);
    } else {
      var f := Iterate(a, eps, k - 1);
      IterateRepresents(a, eps, k - 1);
      AdvanceRepresents(a, f, k - 1, eps);
    }
  }

  /** Once invalid, the loop is over. */
  lemma {:induction false} StoppedAt(a: Matrix, eps: real, k: nat, n: nat)
    requires k <= n <= |a| && !Iterate(a, eps, k).valid
    ensures Iterate(a, eps, n) == Iterate(a, eps, k)
  {
    if k == n {
    } else {
      StoppedAt(a, eps, k, n - 1);
    }
  }

  lemma AdvanceSquare(f: Factorization, k: nat, eps: real)
    requires k < |f.lu| == |f.perm| && IsSquare(f.lu)
    ensures IsSquare(Advance(f, k, eps).lu)
  {
  }

  lemma {:induction false} IterateSquare(a: Matrix, eps: real, k: nat)
    requires IsSquare(a) && k <= |a|
    ensures IsSquare(Iterate(a, eps, k).lu)
  {
    hide Advance;
    if k == 0 {
    } else {
      IterateSquare(a, eps, k - 1);
      AdvanceSquare(Iterate(a, eps, k - 1), k - 1, eps);
    }
  }
}
