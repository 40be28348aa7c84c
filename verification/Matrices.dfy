/** Vectors and matrices as values, with exact real components
    (viskores/Matrix.h keeps them as fixed-size arrays of a float type). */
module Matrices {
  import opened Sums

  type Vector = seq<real>
  type Matrix = seq<Vector>

  /** A point or vector of three dimensions. */
  type Point = p: Vector | |p| == 3 witness [0.0, 0.0, 0.0]

  predicate IsMatrix(m: Matrix, rows: nat, cols: nat) {
    |m| == rows && forall i :: 0 <= i < rows ==> |m[i]| == cols
  }

  /** Components outside a vector or matrix read as zero, which keeps the
      summands below total. */
  function Comp(v: Vector, j: int): real {
    if 0 <= j < |v| then v[j] else 0.0
  }

  function Entry(m: Matrix, i: int, j: int): real {
    if 0 <= i < |m| then Comp(m[i], j) else 0.0
  }

  function DotTerms(u: Vector, v: Vector): int -> real {
    k => Comp(u, k) * Comp(v, k)
  }

  function Dot(u: Vector, v: Vector): real {
    Sum(DotTerms(u, v), |v|)
  }

  function MatVec(m: Matrix, v: Vector): (r: Vector)
    ensures |r| == |m|
  {
    seq(|m|, i requires 0 <= i < |m| => Dot(m[i], v))
  }

  function Column(m: Matrix, j: int): (v: Vector)
    ensures |v| == |m|
  {
    seq(|m|, i => Entry(m, i, j))
  }

  /** The product of a and b, a matrix with the given number of columns. */
  function MatMul(a: Matrix, b: Matrix, cols: nat): (r: Matrix)
    ensures IsMatrix(r, |a|, cols)
  {
    seq(|a|, i requires 0 <= i < |a| => seq(cols, j => Dot(a[i], Column(b, j))))
  }

  function UnitVector(n: nat, p: int): (v: Vector)
    ensures |v| == n
  {
    seq(n, i => if i == p then 1.0 else 0.0)
  }

  function Identity(n: nat): (m: Matrix)
    ensures IsMatrix(m, n, n)
  {
    seq(n, i => UnitVector(n, i))
  }

  function Minus(u: Vector, v: Vector): (r: Vector)
    requires |u| == |v|
    ensures |r| == |u|
  {
    seq(|u|, i requires 0 <= i < |u| => u[i] - v[i])
  }

  function PlusVec(u: Vector, v: Vector): (r: Vector)
    requires |u| == |v|
    ensures |r| == |u|
  {
    seq(|u|, i requires 0 <= i < |u| => u[i] + v[i])
  }

  /** Matrix product is composition of the maps x -> m x. */
  lemma MatVecAssoc(a: Matrix, b: Matrix, x: Vector)
    ensures MatVec(MatMul(a, b, |x|), x) == MatVec(a, MatVec(b, x))
  {
    var ab := MatMul(a, b, |x|);
    forall i | 0 <= i < |a| ensures Dot(ab[i], x) == Dot(a[i], MatVec(b, x)) {
      DotAssoc(a[i], b, x, ab[i]);
    }
  }

  function Triples(u: Vector, b: Matrix, x: Vector): (int, int) -> real {
    (t, k) => Comp(u, t) * Entry(b, t, k) * Comp(x, k)
  }

  lemma ColumnTerm(u: Vector, b: Matrix, x: Vector, k: nat)
    requires k < |x|
    ensures ColumnSum(Triples(u, b, x), |b|)(k) == Dot(u, Column(b, k)) * x[k]
  {
    var h, f := Triples(u, b, x), DotTerms(u, Column(b, k));
    SumScaled(x[k], f, |b|);
    forall t | 0 <= t < |b| ensures InColumn(h, k)(t) == Scaled(x[k], f)(t) {
      assert Comp(u, t) * Entry(b, t, k) * x[k] == x[k] * (Comp(u, t) * Entry(b, t, k));
    }
    SumCong(InColumn(h, k), Scaled(x[k], f), |b|);
  }

  lemma RowTerm(u: Vector, b: Matrix, x: Vector, t: nat)
    requires t < |b|
    ensures RowSum(Triples(u, b, x), |x|)(t) == Comp(u, t) * Dot(b[t], x)
  {
    var h, f := Triples(u, b, x), DotTerms(b[t], x);
    SumScaled(Comp(u, t), f, |x|);
    forall k | 0 <= k < |x| ensures InRow(h, t)(k) == Scaled(Comp(u, t), f)(k) {
      assert Comp(u, t) * Entry(b, t, k) * x[k] == Comp(u, t) * (Entry(b, t, k) * x[k]);
    }
    SumCong(InRow(h, t), Scaled(Comp(u, t), f), |x|);
  }

  lemma DotAssoc(u: Vector, b: Matrix, x: Vector, ub: Vector)
    requires |ub| == |x| && forall k :: 0 <= k < |x| ==> ub[k] == Dot(u, Column(b, k))
    ensures Dot(ub, x) == Dot(u, MatVec(b, x))
  {
    hide Triples, ColumnSum, RowSum;
    var h := Triples(u, b, x);
    forall k | 0 <= k < |x| ensures DotTerms(ub, x)(k) == ColumnSum(h, |b|)(k) { ColumnTerm(u, b, x, k); }
    forall t | 0 <= t < |b| ensures DotTerms(u, MatVec(b, x))(t) == RowSum(h, |x|)(t) { RowTerm(u, b, x, t); }
    SumCong(DotTerms(ub, x), ColumnSum(h, |b|), |x|);
    SumCong(DotTerms(u, MatVec(b, x)), RowSum(h, |x|), |b|);
    SumSwap(h, |b|, |x|);
  }

  lemma DotUnit(u: Vector, n: nat, p: nat)
    requires p < n
    ensures Dot(u, UnitVector(n, p)) == Comp(u, p)
  {
    SumSingle(DotTerms(u, UnitVector(n, p)), n, p);
  }

  lemma UnitDot(p: nat, n: nat, x: Vector)
    requires p < n == |x|
    ensures Dot(UnitVector(n, p), x) == x[p]
  {
    SumSingle(DotTerms(UnitVector(n, p), x), n, p);
  }

  lemma MatVecIdentity(x: Vector)
    ensures MatVec(Identity(|x|), x) == x
  {
    forall p | 0 <= p < |x| ensures Dot(Identity(|x|)[p], x) == x[p] {
      UnitDot(p, |x|, x);
    }
  }

  lemma MatVecUnit(m: Matrix, n: nat, p: nat)
    requires p < n
    ensures MatVec(m, UnitVector(n, p)) == Column(m, p)
  {
    forall i | 0 <= i < |m| ensures Dot(m[i], UnitVector(n, p)) == Entry(m, i, p) {
      DotUnit(m[i], n, p);
    }
  }

  /** The columns of a product are the images of the right factor's columns. */
  lemma ColumnOfProduct(a: Matrix, b: Matrix, cols: nat, j: nat)
    requires j < cols
    ensures Column(MatMul(a, b, cols), j) == MatVec(a, Column(b, j))
  {
  }

  function ScaleVec(c: real, v: Vector): (r: Vector)
    ensures |r| == |v|
  {
    seq(|v|, i requires 0 <= i < |v| => c * v[i])
  }

  lemma DotScale(u: Vector, c: real, v: Vector)
    ensures Dot(u, ScaleVec(c, v)) == c * Dot(u, v)
  {
    SumScaled(c, DotTerms(u, v), |v|);
    forall k | 0 <= k < |v| ensures DotTerms(u, ScaleVec(c, v))(k) == Scaled(c, DotTerms(u, v))(k) {
      MoveFactor(c, Comp(u, k), v[k]);
    }
    SumCong(DotTerms(u, ScaleVec(c, v)), Scaled(c, DotTerms(u, v)), |v|);
  }

  lemma MoveFactor(c: real, x: real, y: real)
    ensures x * (c * y) == c * (x * y)
  {
  }

  lemma DotMinus(w: Vector, u: Vector, v: Vector)
    requires |u| == |v|
    ensures Dot(w, Minus(u, v)) == Dot(w, u) - Dot(w, v)
  {
    SumLinear(DotTerms(w, u), 1.0, DotTerms(w, v), -1.0, DotTerms(w, Minus(u, v)), |u|);
  }

  lemma DotComm(u: Vector, v: Vector)
    requires |u| == |v|
    ensures Dot(u, v) == Dot(v, u)
  {
    SumCong(DotTerms(u, v), DotTerms(v, u), |u|);
  }

  lemma MatVecMinus(m: Matrix, u: Vector, v: Vector)
    requires |u| == |v|
    ensures MatVec(m, Minus(u, v)) == Minus(MatVec(m, u), MatVec(m, v))
  {
    forall i | 0 <= i < |m| ensures Dot(m[i], Minus(u, v)) == Dot(m[i], u) - Dot(m[i], v) {
      DotMinus(m[i], u, v);
    }
  }
}
