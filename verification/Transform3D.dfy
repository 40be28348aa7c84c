/** Homogeneous transforms of points (viskores/Transform3D.h): they compose as
    their matrices multiply, and the computed inverse undoes them. */
module Transform3D {
  import opened Sums
  import opened Matrices
  import opened LUP
  import opened LUPInverse

  predicate IsTransform(m: Matrix) {
    IsMatrix(m, 4, 4)
  }

  /** The fourth row is 0, 0, 0, 1. */
  predicate IsAffine(m: Matrix) {
    IsTransform(m) && m[3] == UnitVector(4, 3)
  }

  function Homogeneous(p: Point): (h: Vector)
    ensures |h| == 4
  {
    p + [1.0]
  }

  function Transform3DPoint(m: Matrix, p: Point): (r: Point)
    requires IsTransform(m)
  {
    var h := Homogeneous(p);
    [Dot(m[0], h), Dot(m[1], h), Dot(m[2], h)]
  }

  /** x times the reciprocal of w. */
  function TimesInverse(x: real, w: real): real
    requires w != 0.0
  {
    x * (1.0 / w)
  }

  function PerspectivePoint(m: Matrix, p: Point): (r: Point)
    requires IsTransform(m) && Dot(m[3], Homogeneous(p)) != 0.0
  {
    var h := Homogeneous(p);
    var w := Dot(m[3], h);
    [TimesInverse(Dot(m[0], h), w), TimesInverse(Dot(m[1], h), w), TimesInverse(Dot(m[2], h), w)]
  }

  /** What the division by the fourth coordinate gives: a point or, when that
      coordinate is zero, components that are all infinite or NaN. */
  datatype Projection = Finite(point: Point) | NotFinite

  function Transform3DPointPerspective(m: Matrix, p: Point): Projection
    requires IsTransform(m)
  {
    if Dot(m[3], Homogeneous(p)) == 0.0 then NotFinite else Finite(PerspectivePoint(m, p))
  }

  /** The transform of a projection. Infinite and NaN components leave no finite sum,
      and dividing by one gives NaN. */
  function PerspectiveOf(m: Matrix, r: Projection): Projection
    requires IsTransform(m)
  {
    if r.NotFinite? then NotFinite else Transform3DPointPerspective(m, r.point)
  }

  function Transform3DVector(m: Matrix, v: Point): (r: Point)
    requires IsTransform(m)
  {
    MatVec(m, v + [0.0])[..3]
  }

  lemma AffineHomogeneous(m: Matrix, p: Point)
    requires IsAffine(m)
    ensures MatVec(m, Homogeneous(p)) == Homogeneous(Transform3DPoint(m, p))
  {
    UnitDot(3, 4, Homogeneous(p));
  }

  /** Applying b and then a is applying the product; only b has to be affine. */
  lemma TransformComposes(a: Matrix, b: Matrix, p: Point)
    requires IsTransform(a) && IsAffine(b)
    ensures Transform3DPoint(MatMul(a, b, 4), p) == Transform3DPoint(a, Transform3DPoint(b, p))
  {
    var h := Homogeneous(p);
    MatVecAssoc(a, b, h);
    AffineHomogeneous(b, p);
    forall i | 0 <= i < 3 ensures Dot(MatMul(a, b, 4)[i], h) == Dot(a[i], Homogeneous(Transform3DPoint(b, p))) {
      assert MatVec(MatMul(a, b, 4), h)[i] == MatVec(a, MatVec(b, h))[i];
    }
  }

  lemma TransformIdentity(p: Point)
    ensures Transform3DPoint(Identity(4), p) == p
  {
    var h := Homogeneous(p);
    UnitDot(0, 4, h);
    UnitDot(1, 4, h);
    UnitDot(2, 4, h);
  }

  /** The inverse of an affine transform is affine. */
  lemma InverseIsAffine(m: Matrix, eps: real)
    requires IsAffine(m) && 0.0 < eps && Factor(m, eps).valid
    ensures IsAffine(Inverse(m, eps))
  {
    var x := Inverse(m, eps);
    InverseRight(m, eps);
    forall j | 0 <= j < 4 ensures x[3][j] == UnitVector(4, 3)[j] {
      UnitDot(3, 4, Column(x, j));
      assert MatMul(m, x, 4)[3][j] == Identity(4)[3][j];
    }
  }

  /** Transforming by the inverse undoes the transform, in either order. */
  lemma InverseUndoes(m: Matrix, eps: real, p: Point)
    requires IsAffine(m) && 0.0 < eps && Factor(m, eps).valid
    ensures Transform3DPoint(Inverse(m, eps), Transform3DPoint(m, p)) == p
    ensures Transform3DPoint(m, Transform3DPoint(Inverse(m, eps), p)) == p
  {
    var x := Inverse(m, eps);
    InverseIsAffine(m, eps);
    InverseLeft(m, eps);
    InverseRight(m, eps);
    TransformComposes(x, m, p);
    TransformComposes(m, x, p);
    TransformIdentity(p);
  }

  /** Vectors transform as differences of points: they are not translated. */
  lemma VectorIsDifference(m: Matrix, p: Point, q: Point)
    requires IsTransform(m)
    ensures Transform3DVector(m, Minus(p, q)) == Minus(Transform3DPoint(m, p), Transform3DPoint(m, q))
  {
    var h, k := Homogeneous(p), Homogeneous(q);
    assert Minus(p, q) + [0.0] == Minus(h, k);
    MatVecMinus(m, h, k);
  }

  // ----- perspective

  lemma Commute(x: real, y: real)
    ensures x * y == y * x
  {
  }

  /** Dividing by w makes the result a multiple of the image vector. */
  lemma PerspectiveHomogeneous(m: Matrix, p: Point)
    requires IsTransform(m) && Dot(m[3], Homogeneous(p)) != 0.0
    ensures Homogeneous(PerspectivePoint(m, p))
         == ScaleVec(1.0 / Dot(m[3], Homogeneous(p)), MatVec(m, Homogeneous(p)))
  {
    hide Dot;
    var h := Homogeneous(p);
    var c := 1.0 / Dot(m[3], h);
    var left, right := Homogeneous(PerspectivePoint(m, p)), ScaleVec(c, MatVec(m, h));
    forall i | 0 <= i < 4 ensures left[i] == right[i] { Commute(c, Dot(m[i], h)); }
  }

  /** A common factor of the coordinates cancels in the division by w. */
  lemma CancelFactor(c: real, x: real, w: real, x': real, w': real)
    requires x' == c * x && w' == c * w && w' != 0.0
    ensures w != 0.0 && TimesInverse(x', w') == TimesInverse(x, w)
  {
    assert (c * x) / (c * w) == x / w;
  }

  /** What a computes on b's output is a common multiple of what the product computes. */
  lemma PerspectiveRows(a: Matrix, b: Matrix, p: Point, i: nat)
    requires IsTransform(a) && IsTransform(b) && Dot(b[3], Homogeneous(p)) != 0.0 && i < 4
    ensures Dot(a[i], Homogeneous(PerspectivePoint(b, p)))
         == (1.0 / Dot(b[3], Homogeneous(p))) * Dot(MatMul(a, b, 4)[i], Homogeneous(p))
  {
    hide Dot, MatMul, PerspectivePoint;
    var h, ab := Homogeneous(p), MatMul(a, b, 4);
    MatVecAssoc(a, b, h);
    PerspectiveHomogeneous(b, p);
    DotScale(a[i], 1.0 / Dot(b[3], h), MatVec(b, h));
    assert MatVec(ab, h)[i] == MatVec(a, MatVec(b, h))[i];
  }

  lemma PerspectiveRatio(a: Matrix, b: Matrix, p: Point, i: nat)
    requires IsTransform(a) && IsTransform(b) && Dot(b[3], Homogeneous(p)) != 0.0 && i < 4
    requires Dot(a[3], Homogeneous(PerspectivePoint(b, p))) != 0.0
    ensures var h, k, ab := Homogeneous(p), Homogeneous(PerspectivePoint(b, p)), MatMul(a, b, 4);
            Dot(ab[3], h) != 0.0 && TimesInverse(Dot(a[i], k), Dot(a[3], k)) == TimesInverse(Dot(ab[i], h), Dot(ab[3], h))
  {
    hide Dot, MatMul, PerspectivePoint;
    var h, k, ab := Homogeneous(p), Homogeneous(PerspectivePoint(b, p)), MatMul(a, b, 4);
    PerspectiveRows(a, b, p, 3);
    PerspectiveRows(a, b, p, i);
    CancelFactor(1.0 / Dot(b[3], h), Dot(ab[i], h), Dot(ab[3], h), Dot(a[i], k), Dot(a[3], k));
  }

  lemma PerspectiveProduct(a: Matrix, b: Matrix, p: Point)
    requires IsTransform(a) && IsTransform(b) && Dot(b[3], Homogeneous(p)) != 0.0
    requires Dot(a[3], Homogeneous(PerspectivePoint(b, p))) != 0.0
    ensures Dot(MatMul(a, b, 4)[3], Homogeneous(p)) != 0.0
    ensures PerspectivePoint(MatMul(a, b, 4), p) == PerspectivePoint(a, PerspectivePoint(b, p))
  {
    hide Dot, MatMul, TimesInverse;
    PerspectiveRatio(a, b, p, 0);
    PerspectiveRatio(a, b, p, 1);
    PerspectiveRatio(a, b, p, 2);
  }

  lemma ZeroProduct(c: real, x: real)
    requires c != 0.0
    ensures c * x == 0.0 <==> x == 0.0
  {
  }

  /** Perspective transforms compose as their matrices multiply, infinite results
      included, exactly when the first one is finite or the product's is not. */
  lemma PerspectiveComposes(a: Matrix, b: Matrix, p: Point)
    requires IsTransform(a) && IsTransform(b)
    ensures PerspectiveOf(a, Transform3DPointPerspective(b, p)) == Transform3DPointPerspective(MatMul(a, b, 4), p)
       <==> Dot(b[3], Homogeneous(p)) != 0.0 || Dot(MatMul(a, b, 4)[3], Homogeneous(p)) == 0.0
  {
    hide Dot, MatMul, PerspectivePoint;
    var h := Homogeneous(p);
    if Dot(b[3], h) != 0.0 {
      PerspectiveRows(a, b, p, 3);
      ZeroProduct(1.0 / Dot(b[3], h), Dot(MatMul(a, b, 4)[3], h));
      if Dot(a[3], Homogeneous(PerspectivePoint(b, p))) != 0.0 { PerspectiveProduct(a, b, p); }
    }
  }

  /** On an affine matrix the division changes nothing. */
  lemma PerspectiveOfAffine(m: Matrix, p: Point)
    requires IsAffine(m)
    ensures Transform3DPointPerspective(m, p) == Finite(Transform3DPoint(m, p))
  {
    UnitDot(3, 4, Homogeneous(p));
  }

  // ----- the matrix builders

  function Transform3DScale(scale: Point): (m: Matrix)
    ensures IsAffine(m)
  {
    [[scale[0], 0.0, 0.0, 0.0], [0.0, scale[1], 0.0, 0.0], [0.0, 0.0, scale[2], 0.0], [0.0, 0.0, 0.0, 1.0]]
  }

  function Transform3DTranslate(v: Point): (m: Matrix)
    ensures IsAffine(m)
  {
    [[1.0, 0.0, 0.0, v[0]], [0.0, 1.0, 0.0, v[1]], [0.0, 0.0, 1.0, v[2]], [0.0, 0.0, 0.0, 1.0]]
  }

  /** The rotation about a unit axis, given the sine and cosine of the angle. */
  function Transform3DRotate(s: real, c: real, a: Point): (m: Matrix)
    ensures IsAffine(m)
  {
    [[Turn(a[0], a[0], c) + c,           Turn(a[0], a[1], c) - a[2] * s, Turn(a[0], a[2], c) + a[1] * s, 0.0],
     [Turn(a[1], a[0], c) + a[2] * s,    Turn(a[1], a[1], c) + c,        Turn(a[1], a[2], c) - a[0] * s, 0.0],
     [Turn(a[2], a[0], c) - a[1] * s,    Turn(a[2], a[1], c) + a[0] * s, Turn(a[2], a[2], c) + c,        0.0],
     [0.0, 0.0, 0.0, 1.0]]
  }

  function Turn(x: real, y: real, c: real): real {
    x * y * (1.0 - c)
  }

  lemma DotOf4(u: Vector, v: Vector)
    requires |u| == |v| == 4
    ensures Dot(u, v) == u[0] * v[0] + u[1] * v[1] + u[2] * v[2] + u[3] * v[3]
  {
    var f := DotTerms(u, v);
    assert Sum(f, 4) == Sum(f, 3) + f(3);
    assert Sum(f, 3) == Sum(f, 2) + f(2);
    assert Sum(f, 2) == f(0) + f(1);
  }

  lemma TranslateAdds(v: Point, p: Point)
    ensures Transform3DPoint(Transform3DTranslate(v), p) == PlusVec(p, v)
  {
    var h, t := Homogeneous(p), Transform3DTranslate(v);
    DotOf4(t[0], h);
    DotOf4(t[1], h);
    DotOf4(t[2], h);
    hide Dot;
    assert Transform3DPoint(t, p) == [p[0] + v[0], p[1] + v[1], p[2] + v[2]];
  }

  lemma ScaleMultiplies(v: Point, p: Point)
    ensures Transform3DPoint(Transform3DScale(v), p) == [v[0] * p[0], v[1] * p[1], v[2] * p[2]]
  {
    var h, t := Homogeneous(p), Transform3DScale(v);
    DotOf4(t[0], h);
    DotOf4(t[1], h);
    DotOf4(t[2], h);
    hide Dot;
    assert Dot(t[0], h) == v[0] * p[0];
    assert Dot(t[1], h) == v[1] * p[1];
    assert Dot(t[2], h) == v[2] * p[2];
  }
}
