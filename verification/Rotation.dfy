/** Transform3DRotate (viskores/Transform3D.h): the rotation about a unit axis keeps
    lengths and fixes the axis. Sine and cosine enter only through the sum of their
    squares being one. */
module Rotation {
  import opened Matrices
  import opened Transform3D

  predicate UnitAxis(a: Point) {
    a[0] * a[0] + a[1] * a[1] + a[2] * a[2] == 1.0
  }

  predicate OnCircle(s: real, c: real) {
    s * s + c * c == 1.0
  }

  function LengthSquared(p: Point): real {
    p[0] * p[0] + p[1] * p[1] + p[2] * p[2]
  }

  function Dot3(p: real, q: real, r: real, p': real, q': real, r': real): real {
    p * p' + q * q' + r * r'
  }

  lemma Dot3Cycle(p: real, q: real, r: real, p': real, q': real, r': real)
    ensures Dot3(p, q, r, p', q', r') == Dot3(q, r, p, q', r', p')
  {
  }

  lemma TimesOne(x: real, n: real)
    requires n == 1.0
    ensures x * n == x
  {
  }

  lemma SquareIdentity(x: real, y: real, z: real, s: real, c: real)
    ensures var p, q, r := x * x * (1.0 - c) + c, y * x * (1.0 - c) + z * s, z * x * (1.0 - c) - y * s;
            var n, m := x * x + y * y + z * z, s * s + c * c;
            Dot3(p, q, r, p, q, r)
              == x * x * (1.0 - c) * (1.0 - c) * n - x * x * (1.0 - c) * (1.0 - c) + x * x - x * x * m + s * s * n + c * c
  {
  }

  /** The square of a column p, q, r: the axis components enter in cyclic order. */
  lemma ColumnSquare(x: real, y: real, z: real, s: real, c: real, p: real, q: real, r: real)
    requires x * x + y * y + z * z == 1.0 && s * s + c * c == 1.0
    requires p == Turn(x, x, c) + c && q == Turn(y, x, c) + z * s && r == Turn(z, x, c) - y * s
    ensures Dot3(p, q, r, p, q, r) == 1.0
  {
    assert p == x * x * (1.0 - c) + c && q == y * x * (1.0 - c) + z * s && r == z * x * (1.0 - c) - y * s;
    SquareIdentity(x, y, z, s, c);
    TimesOne(x * x * (1.0 - c) * (1.0 - c), x * x + y * y + z * z);
    TimesOne(s * s, x * x + y * y + z * z);
    TimesOne(x * x, s * s + c * c);
  }

  lemma ProductIdentity(x: real, y: real, z: real, s: real, c: real)
    ensures var p, q, r := x * x * (1.0 - c) + c, y * x * (1.0 - c) + z * s, z * x * (1.0 - c) - y * s;
            var p', q', r' := x * y * (1.0 - c) - z * s, y * y * (1.0 - c) + c, z * y * (1.0 - c) + x * s;
            var n, m := x * x + y * y + z * z, s * s + c * c;
            Dot3(p, q, r, p', q', r')
              == x * y * (1.0 - c) * (1.0 - c) * n - x * y * (1.0 - c) * (1.0 - c) + x * y - x * y * m
  {
  }

  /** Two columns, in cyclic order of the axis components, are orthogonal. */
  lemma ColumnProduct(x: real, y: real, z: real, s: real, c: real, p: real, q: real, r: real, p': real, q': real, r': real)
    requires x * x + y * y + z * z == 1.0 && s * s + c * c == 1.0
    requires p == Turn(x, x, c) + c && q == Turn(y, x, c) + z * s && r == Turn(z, x, c) - y * s
    requires p' == Turn(x, y, c) - z * s && q' == Turn(y, y, c) + c && r' == Turn(z, y, c) + x * s
    ensures Dot3(p, q, r, p', q', r') == 0.0
  {
    hide Dot3;
    assert p == x * x * (1.0 - c) + c && q == y * x * (1.0 - c) + z * s && r == z * x * (1.0 - c) - y * s;
    assert p' == x * y * (1.0 - c) - z * s && q' == y * y * (1.0 - c) + c && r' == z * y * (1.0 - c) + x * s;
    ProductIdentity(x, y, z, s, c);
    TimesOne(x * y * (1.0 - c) * (1.0 - c), x * x + y * y + z * z);
    TimesOne(x * y, s * s + c * c);
  }

  /** The product of columns i and j of the upper left block. */
  function ColumnDot(r: Matrix, i: nat, j: nat): real
    requires IsTransform(r) && i < 3 && j < 3
  {
    Dot3(r[0][i], r[1][i], r[2][i], r[0][j], r[1][j], r[2][j])
  }

  lemma Entries(s: real, c: real, a: Point)
    ensures var r, x, y, z := Transform3DRotate(s, c, a), a[0], a[1], a[2];
            && r[0][0] == Turn(x, x, c) + c     && r[0][1] == Turn(x, y, c) - z * s && r[0][2] == Turn(x, z, c) + y * s
            && r[1][0] == Turn(y, x, c) + z * s && r[1][1] == Turn(y, y, c) + c     && r[1][2] == Turn(y, z, c) - x * s
            && r[2][0] == Turn(z, x, c) - y * s && r[2][1] == Turn(z, y, c) + x * s && r[2][2] == Turn(z, z, c) + c
  {
  }

  /** The columns of a rotation are orthonormal. */
  lemma ColumnsOrthonormal(s: real, c: real, a: Point)
    requires UnitAxis(a) && OnCircle(s, c)
    ensures var r := Transform3DRotate(s, c, a);
            && ColumnDot(r, 0, 0) == ColumnDot(r, 1, 1) == ColumnDot(r, 2, 2) == 1.0
            && ColumnDot(r, 0, 1) == ColumnDot(r, 1, 2) == ColumnDot(r, 2, 0) == 0.0
  {
    hide Dot3, Turn, Transform3DRotate;
    var r := Transform3DRotate(s, c, a);
    var x, y, z := a[0], a[1], a[2];
    Entries(s, c, a);
    ColumnSquare(x, y, z, s, c, r[0][0], r[1][0], r[2][0]);
    ColumnSquare(y, z, x, s, c, r[1][1], r[2][1], r[0][1]);
    ColumnSquare(z, x, y, s, c, r[2][2], r[0][2], r[1][2]);
    ColumnProduct(x, y, z, s, c, r[0][0], r[1][0], r[2][0], r[0][1], r[1][1], r[2][1]);
    ColumnProduct(y, z, x, s, c, r[1][1], r[2][1], r[0][1], r[1][2], r[2][2], r[0][2]);
    ColumnProduct(z, x, y, s, c, r[2][2], r[0][2], r[1][2], r[2][0], r[0][0], r[1][0]);
    ColumnCycle(r, 1, 1);
    ColumnCycle(r, 2, 2);
    ColumnCycle(r, 1, 2);
    ColumnCycle(r, 2, 0);
  }

  lemma ColumnCycle(r: Matrix, i: nat, j: nat)
    requires IsTransform(r) && i < 3 && j < 3
    ensures ColumnDot(r, i, j) == Dot3(r[1][i], r[2][i], r[0][i], r[1][j], r[2][j], r[0][j])
    ensures ColumnDot(r, i, j) == Dot3(r[2][i], r[0][i], r[1][i], r[2][j], r[0][j], r[1][j])
  {
    Dot3Cycle(r[0][i], r[1][i], r[2][i], r[0][j], r[1][j], r[2][j]);
    Dot3Cycle(r[1][i], r[2][i], r[0][i], r[1][j], r[2][j], r[0][j]);
  }

  /** A row without its last entry, applied to a point. */
  function Apply(u: Vector, p: Point): real
    requires |u| == 4
  {
    Dot3(u[0], u[1], u[2], p[0], p[1], p[2])
  }

  lemma ZeroFourth(u: Vector, p: Point)
    requires |u| == 4 && u[3] == 0.0
    ensures Dot(u, Homogeneous(p)) == Apply(u, p)
  {
    DotOf4(u, Homogeneous(p));
  }

  lemma RotatePoint(s: real, c: real, a: Point, p: Point)
    ensures var r := Transform3DRotate(s, c, a);
            Transform3DPoint(r, p) == [Apply(r[0], p), Apply(r[1], p), Apply(r[2], p)]
  {
    hide Turn, Apply, Dot;
    var r := Transform3DRotate(s, c, a);
    ZeroFourth(r[0], p);
    ZeroFourth(r[1], p);
    ZeroFourth(r[2], p);
  }

  /** The squared length of the image as a quadratic form in the point. */
  lemma QuadraticForm(u: Vector, v: Vector, w: Vector, p: Point)
    requires |u| == |v| == |w| == 4
    ensures LengthSquared([Apply(u, p), Apply(v, p), Apply(w, p)])
         == p[0] * p[0] * Dot3(u[0], v[0], w[0], u[0], v[0], w[0])
          + p[1] * p[1] * Dot3(u[1], v[1], w[1], u[1], v[1], w[1])
          + p[2] * p[2] * Dot3(u[2], v[2], w[2], u[2], v[2], w[2])
          + 2.0 * p[0] * p[1] * Dot3(u[0], v[0], w[0], u[1], v[1], w[1])
          + 2.0 * p[1] * p[2] * Dot3(u[1], v[1], w[1], u[2], v[2], w[2])
          + 2.0 * p[2] * p[0] * Dot3(u[2], v[2], w[2], u[0], v[0], w[0])
  {
  }

  lemma UnitForm(p: Point, d0: real, d1: real, d2: real, e0: real, e1: real, e2: real)
    requires d0 == d1 == d2 == 1.0 && e0 == e1 == e2 == 0.0
    ensures p[0] * p[0] * d0 + p[1] * p[1] * d1 + p[2] * p[2] * d2
          + 2.0 * p[0] * p[1] * e0 + 2.0 * p[1] * p[2] * e1 + 2.0 * p[2] * p[0] * e2 == LengthSquared(p)
  {
  }

  lemma FormOfColumns(r: Matrix, p: Point)
    requires IsTransform(r)
    requires ColumnDot(r, 0, 0) == ColumnDot(r, 1, 1) == ColumnDot(r, 2, 2) == 1.0
    requires ColumnDot(r, 0, 1) == ColumnDot(r, 1, 2) == ColumnDot(r, 2, 0) == 0.0
    ensures LengthSquared([Apply(r[0], p), Apply(r[1], p), Apply(r[2], p)]) == LengthSquared(p)
  {
    hide Apply, Dot3, LengthSquared;
    QuadraticForm(r[0], r[1], r[2], p);
    UnitForm(p, ColumnDot(r, 0, 0), ColumnDot(r, 1, 1), ColumnDot(r, 2, 2),
             ColumnDot(r, 0, 1), ColumnDot(r, 1, 2), ColumnDot(r, 2, 0));
  }

  /** Rotating a point keeps its distance from the origin. */
  lemma RotateKeepsLength(s: real, c: real, a: Point, p: Point)
    requires UnitAxis(a) && OnCircle(s, c)
    ensures LengthSquared(Transform3DPoint(Transform3DRotate(s, c, a), p)) == LengthSquared(p)
  {
    hide Turn, LengthSquared, Transform3DPoint, Transform3DRotate, Apply, ColumnDot;
    RotatePoint(s, c, a, p);
    ColumnsOrthonormal(s, c, a);
    FormOfColumns(Transform3DRotate(s, c, a), p);
  }

  lemma AxisRow(x: real, y: real, z: real, s: real, c: real, p: real, q: real, r: real)
    requires x * x + y * y + z * z == 1.0
    requires p == Turn(x, x, c) + c && q == Turn(x, y, c) - z * s && r == Turn(x, z, c) + y * s
    ensures Dot3(p, q, r, x, y, z) == x
  {
    TimesOne(x * (1.0 - c), x * x + y * y + z * z);
  }

  /** Points on the axis stay where they are. */
  lemma RotateFixesAxis(s: real, c: real, a: Point)
    requires UnitAxis(a)
    ensures Transform3DPoint(Transform3DRotate(s, c, a), a) == a
  {
    hide Turn, Transform3DPoint, Dot3, Transform3DRotate;
    var x, y, z := a[0], a[1], a[2];
    var r := Transform3DRotate(s, c, a);
    Entries(s, c, a);
    RotatePoint(s, c, a, a);
    AxisRow(x, y, z, s, c, r[0][0], r[0][1], r[0][2]);
    AxisRow(y, z, x, s, c, r[1][1], r[1][2], r[1][0]);
    AxisRow(z, x, y, s, c, r[2][2], r[2][0], r[2][1]);
    Dot3Cycle(r[1][0], r[1][1], r[1][2], x, y, z);
    Dot3Cycle(r[2][0], r[2][1], r[2][2], x, y, z);
    Dot3Cycle(r[2][1], r[2][2], r[2][0], y, z, x);
  }

  // ----- the angle, and the right-hand rule

  /** The inner product of two points. */
  function Inner(p: Point, q: Point): real {
    Dot3(p[0], p[1], p[2], q[0], q[1], q[2])
  }

  function Wedge(y: real, z: real, q: real, r: real): real {
    y * r - z * q
  }

  function Cross(p: Point, q: Point): Point {
    [Wedge(p[1], p[2], q[1], q[2]), Wedge(p[2], p[0], q[2], q[0]), Wedge(p[0], p[1], q[0], q[1])]
  }

  /** A component of c p + s w + (1 - c) d a. */
  function Blend(s: real, c: real, d: real, p: real, w: real, a: real): real {
    c * p + s * w + (1.0 - c) * d * a
  }

  /** Rodrigues' formula: c p + s (a x p) + (1 - c) (a . p) a. */
  function Turned(s: real, c: real, a: Point, p: Point): Point {
    var w, d := Cross(a, p), Inner(a, p);
    [Blend(s, c, d, p[0], w[0], a[0]), Blend(s, c, d, p[1], w[1], a[1]), Blend(s, c, d, p[2], w[2], a[2])]
  }

  lemma TurnedIdentity(x: real, y: real, z: real, s: real, c: real, p: real, q: real, r: real)
    ensures (Turn(x, x, c) + c) * p + (Turn(x, y, c) - z * s) * q + (Turn(x, z, c) + y * s) * r
         == Blend(s, c, Dot3(x, y, z, p, q, r), p, Wedge(y, z, q, r), x)
  {
  }

  lemma TurnedRow(x: real, y: real, z: real, s: real, c: real, u: real, v: real, w: real, p: real, q: real, r: real)
    requires u == Turn(x, x, c) + c && v == Turn(x, y, c) - z * s && w == Turn(x, z, c) + y * s
    ensures Dot3(u, v, w, p, q, r) == Blend(s, c, Dot3(x, y, z, p, q, r), p, Wedge(y, z, q, r), x)
  {
    hide Turn, Blend, Wedge;
    TurnedIdentity(x, y, z, s, c, p, q, r);
    Dot3Cong(u, v, w, p, q, r, Turn(x, x, c) + c, Turn(x, y, c) - z * s, Turn(x, z, c) + y * s);
  }

  lemma Dot3Cong(u: real, v: real, w: real, p: real, q: real, r: real, u': real, v': real, w': real)
    requires u == u' && v == v' && w == w'
    ensures Dot3(u, v, w, p, q, r) == u' * p + v' * q + w' * r
  {
  }

  lemma RotateIsRodrigues(s: real, c: real, a: Point, p: Point)
    ensures Transform3DPoint(Transform3DRotate(s, c, a), p) == Turned(s, c, a, p)
  {
    hide Transform3DPoint, Dot3, Transform3DRotate, Turn, Blend, Wedge;
    var x, y, z := a[0], a[1], a[2];
    var r := Transform3DRotate(s, c, a);
    Entries(s, c, a);
    RotatePoint(s, c, a, p);
    TurnedRow(x, y, z, s, c, r[0][0], r[0][1], r[0][2], p[0], p[1], p[2]);
    TurnedRow(y, z, x, s, c, r[1][1], r[1][2], r[1][0], p[1], p[2], p[0]);
    TurnedRow(z, x, y, s, c, r[2][2], r[2][0], r[2][1], p[2], p[0], p[1]);
    Dot3Cycle(r[1][0], r[1][1], r[1][2], p[0], p[1], p[2]);
    Dot3Cycle(r[2][0], r[2][1], r[2][2], p[0], p[1], p[2]);
    Dot3Cycle(r[2][1], r[2][2], r[2][0], p[1], p[2], p[0]);
    Dot3Cycle(x, y, z, p[0], p[1], p[2]);
    Dot3Cycle(y, z, x, p[1], p[2], p[0]);
  }

  lemma CrossTwiceEntry(x: real, y: real, z: real, p: real, q: real, r: real)
    ensures q * (x * q - y * p) - r * (z * p - x * r) == (p * p + q * q + r * r) * x - (x * p + y * q + z * r) * p
  {
  }

  /** p x (a x p) = |p|^2 a - (a . p) p, which is orthogonal to the plane of p and a x p. */
  lemma CrossTwice(a: Point, p: Point, i: nat)
    requires i < 3
    ensures Cross(p, Cross(a, p))[i] == LengthSquared(p) * a[i] - Inner(a, p) * p[i]
  {
    CrossTwiceEntry(a[0], a[1], a[2], p[0], p[1], p[2]);
    CrossTwiceEntry(a[1], a[2], a[0], p[1], p[2], p[0]);
    CrossTwiceEntry(a[2], a[0], a[1], p[2], p[0], p[1]);
  }

  lemma CrossOrthogonal(a: Point, p: Point)
    ensures Inner(p, Cross(a, p)) == 0.0
  {
  }

  lemma CrossLinearEntry(s: real, c: real, q: real, r: real, v: real, w: real)
    ensures q * (c * r + s * w) - r * (c * q + s * v) == s * (q * w - r * v)
  {
  }

  lemma CrossLinear(s: real, c: real, p: Point, w: Point, q: Point, i: nat)
    requires i < 3 && forall k :: 0 <= k < 3 ==> q[k] == c * p[k] + s * w[k]
    ensures Cross(p, q)[i] == s * Cross(p, w)[i]
  {
    CrossLinearEntry(s, c, p[1], p[2], w[1], w[2]);
    CrossLinearEntry(s, c, p[2], p[0], w[2], w[0]);
    CrossLinearEntry(s, c, p[0], p[1], w[0], w[1]);
  }

  lemma InnerLinear(s: real, c: real, p: Point, w: Point, q: Point)
    requires forall k :: 0 <= k < 3 ==> q[k] == c * p[k] + s * w[k]
    ensures Inner(p, q) == c * LengthSquared(p) + s * Inner(p, w)
  {
    assert Inner(p, q) == p[0] * (c * p[0] + s * w[0]) + p[1] * (c * p[1] + s * w[1]) + p[2] * (c * p[2] + s * w[2]);
  }

  /** A point p in the plane through the origin orthogonal to the axis turns by the
      angle, in the right-hand sense: p . q = c |p|^2 and p x q = s |p|^2 a. */
  lemma RotateTurnsRightHanded(s: real, c: real, a: Point, p: Point)
    requires UnitAxis(a) && Inner(a, p) == 0.0
    ensures var q := Transform3DPoint(Transform3DRotate(s, c, a), p);
            Inner(p, q) == c * LengthSquared(p) && Cross(p, q) == ScaleVec(s * LengthSquared(p), a)
  {
    hide Transform3DPoint, Transform3DRotate, Cross, Inner, LengthSquared;
    var q, w := Transform3DPoint(Transform3DRotate(s, c, a), p), Cross(a, p);
    RotateIsRodrigues(s, c, a, p);
    forall k | 0 <= k < 3 ensures q[k] == c * p[k] + s * w[k] {
      assert q[k] == Blend(s, c, 0.0, p[k], w[k], a[k]);
    }
    InnerLinear(s, c, p, w, q);
    CrossOrthogonal(a, p);
    var turn := s * LengthSquared(p);
    forall i | 0 <= i < 3 ensures Cross(p, q)[i] == ScaleVec(turn, a)[i] {
      CrossLinear(s, c, p, w, q, i);
      CrossTwice(a, p, i);
      assert s * (LengthSquared(p) * a[i]) == turn * a[i];
    }
    assert Cross(p, q) == ScaleVec(turn, a);
  }

  /** About the third axis, counterclockwise: the first unit vector goes to (c, s, 0), and
      the second to (-s, c, 0). */
  lemma RotateAboutThirdAxis(s: real, c: real)
    ensures var r := Transform3DRotate(s, c, [0.0, 0.0, 1.0]);
            && Transform3DPoint(r, [1.0, 0.0, 0.0]) == [c, s, 0.0]
            && Transform3DPoint(r, [0.0, 1.0, 0.0]) == [-s, c, 0.0]
  {
    hide Transform3DRotate, Transform3DPoint;
    RotateIsRodrigues(s, c, [0.0, 0.0, 1.0], [1.0, 0.0, 0.0]);
    RotateIsRodrigues(s, c, [0.0, 0.0, 1.0], [0.0, 1.0, 0.0]);
  }
}
