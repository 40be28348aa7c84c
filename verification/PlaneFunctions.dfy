/** Implicit functions that are a maximum of planes: Frustum and MultiPlane
    (viskores/ImplicitFunction.h), over exact reals in any dimension. */
module PlaneFunctions {
  import opened Arithmetic
  import opened Sums
  import opened Matrices
  import opened BoxFunction

  datatype Plane = Plane(origin: Vector, normal: Vector)

  predicate InDimension(n: nat, planes: seq<Plane>) {
    forall i :: 0 <= i < |planes| ==> |planes[i].origin| == |planes[i].normal| == n
  }

  function PlaneValue(plane: Plane, point: Vector): real
    requires |plane.origin| == |plane.normal| == |point|
  {
    Dot(Minus(point, plane.origin), plane.normal)
  }

  /** The half-space bounded by the plane through the origin that is orthogonal to the
      normal, on the side the normal points away from. */
  predicate InHalfSpace(plane: Plane, p: Vector)
    requires |plane.origin| == |plane.normal| == |p|
  {
    Dot(p, plane.normal) <= Dot(plane.origin, plane.normal)
  }

  /** A plane's value is how far along its normal the point is, measured from the plane's
      origin; so it is zero there, and its sign says on which side the point lies. */
  lemma PlaneValueMeans(plane: Plane, p: Vector)
    requires |plane.origin| == |plane.normal| == |p|
    ensures PlaneValue(plane, p) == Dot(p, plane.normal) - Dot(plane.origin, plane.normal)
    ensures PlaneValue(plane, plane.origin) == 0.0
    ensures PlaneValue(plane, p) <= 0.0 <==> InHalfSpace(plane, p)
  {
    hide Dot;
    OffsetDot(p, plane.origin, plane.normal);
    OffsetDot(plane.origin, plane.origin, plane.normal);
  }

  lemma OffsetDot(p: Vector, o: Vector, n: Vector)
    requires |p| == |o| == |n|
    ensures Dot(Minus(p, o), n) == Dot(p, n) - Dot(o, n)
  {
    hide Dot;
    DotComm(Minus(p, o), n);
    DotMinus(n, p, o);
    DotComm(n, p);
    DotComm(n, o);
  }

  /** The plane at an index has the largest value, and those before it smaller ones. */
  predicate IsFirstMaximum(planes: seq<Plane>, point: Vector, at: nat)
    requires InDimension(|point|, planes) && at < |planes|
  {
    && (forall i :: 0 <= i < |planes| ==> PlaneValue(planes[i], point) <= PlaneValue(planes[at], point))
    && (forall i :: 0 <= i < at ==> PlaneValue(planes[i], point) < PlaneValue(planes[at], point))
  }

  lemma FirstMaximumNext(planes: seq<Plane>, point: Vector, at: nat)
    requires InDimension(|point|, planes) && at < |planes| - 1
    requires IsFirstMaximum(planes[..|planes| - 1], point, at)
    ensures var last := |planes| - 1;
            IsFirstMaximum(planes, point,
                           if PlaneValue(planes[last], point) > PlaneValue(planes[at], point) then last else at)
  {
    hide PlaneValue;
    var last := |planes| - 1;
    assert forall i :: 0 <= i < last ==> planes[..last][i] == planes[i];
  }

  /** The first plane of largest value. */
  function Peak(planes: seq<Plane>, point: Vector): (at: nat)
    requires InDimension(|point|, planes) && planes != []
    ensures at < |planes| && IsFirstMaximum(planes, point, at)
  {
    hide PlaneValue, IsFirstMaximum;
    if |planes| == 1 then 0 else
      var last := |planes| - 1;
      var at := Peak(planes[..last], point);
      FirstMaximumNext(planes, point, at);
      if PlaneValue(planes[last], point) > PlaneValue(planes[at], point) then last else at
  }

  /** The largest value of any plane. */
  function Highest(planes: seq<Plane>, point: Vector): real
    requires InDimension(|point|, planes) && planes != []
  {
    PlaneValue(planes[Peak(planes, point)], point)
  }

  /** v is the largest of Dot(point, normal) - Dot(origin, normal) over the planes. */
  predicate IsLargestOffset(planes: seq<Plane>, point: Vector, v: real)
    requires InDimension(|point|, planes)
  {
    && (forall i :: 0 <= i < |planes| ==> Dot(point, planes[i].normal) - Dot(planes[i].origin, planes[i].normal) <= v)
    && (exists i :: 0 <= i < |planes| && Dot(point, planes[i].normal) - Dot(planes[i].origin, planes[i].normal) == v)
  }

  lemma HighestIsLargestOffset(planes: seq<Plane>, point: Vector)
    requires InDimension(|point|, planes) && planes != []
    ensures IsLargestOffset(planes, point, Highest(planes, point))
  {
    hide PlaneValue, Dot;
    var v, at := Highest(planes, point), Peak(planes, point);
    assert IsFirstMaximum(planes, point, at);
    forall i | 0 <= i < |planes|
      ensures Dot(point, planes[i].normal) - Dot(planes[i].origin, planes[i].normal) <= v
    {
      PlaneValueMeans(planes[i], point);
    }
    PlaneValueMeans(planes[at], point);
    assert Dot(point, planes[at].normal) - Dot(planes[at].origin, planes[at].normal) == v;
  }

  /** The normal of the first plane of largest value. */
  function Slope(planes: seq<Plane>, point: Vector): (slope: Vector)
    requires InDimension(|point|, planes) && planes != []
    ensures |slope| == |point|
  {
    planes[Peak(planes, point)].normal
  }

  method Value(planes: seq<Plane>, point: Vector) returns (maxVal: Level)
    requires InDimension(|point|, planes)
    ensures maxVal == if planes == [] then NegativeInfinity else At(Highest(planes, point))
    ensures planes != [] ==> IsLargestOffset(planes, point, maxVal.value)
  {
    hide PlaneValue;
    maxVal := NegativeInfinity;
    for index := 0 to |planes|
      invariant maxVal == NegativeInfinity <==> index == 0
      invariant maxVal.At? ==> (
        && (forall i :: 0 <= i < index ==> PlaneValue(planes[i], point) <= maxVal.value)
        && (exists i :: 0 <= i < index && PlaneValue(planes[i], point) == maxVal.value))
    {
      var val := PlaneValue(planes[index], point);
      maxVal := BoxFunction.Max(maxVal, val);
    }
    if planes != [] {
      assert IsFirstMaximum(planes, point, Peak(planes, point));
      HighestIsLargestOffset(planes, point);
    }
  }

  method Gradient(planes: seq<Plane>, point: Vector) returns (gradient: Vector)
    requires InDimension(|point|, planes) && planes != []
    ensures gradient == Slope(planes, point)
  {
    hide PlaneValue;
    var maxVal, maxValIdx := NegativeInfinity, 0;
    for index := 0 to |planes|
      invariant maxVal == NegativeInfinity <==> index == 0
      invariant maxVal.At? ==> (
        && maxValIdx < index && PlaneValue(planes[maxValIdx], point) == maxVal.value
        && (forall i :: 0 <= i < index ==> PlaneValue(planes[i], point) <= maxVal.value)
        && (forall i :: 0 <= i < maxValIdx ==> PlaneValue(planes[i], point) < maxVal.value))
    {
      var val := PlaneValue(planes[index], point);
      if maxVal.NegativeInfinity? || val > maxVal.value {
        maxVal, maxValIdx := At(val), index;
      }
    }
    gradient := planes[maxValIdx].normal;
    assert IsFirstMaximum(planes, point, maxValIdx) && IsFirstMaximum(planes, point, Peak(planes, point));
  }

  // ----- a maximum of planes is convex, and the gradient supports it

  lemma PlaneIsAffine(plane: Plane, p: Vector, q: Vector)
    requires |plane.origin| == |plane.normal| == |p| == |q|
    ensures PlaneValue(plane, q) == PlaneValue(plane, p) + Dot(plane.normal, Minus(q, p))
  {
    hide Dot;
    DotComm(Minus(q, plane.origin), plane.normal);
    DotComm(Minus(p, plane.origin), plane.normal);
    DotMinus(plane.normal, q, plane.origin);
    DotMinus(plane.normal, p, plane.origin);
    DotMinus(plane.normal, q, p);
  }

  /** The gradient at p is a subgradient: the value anywhere is at least that of the
      supporting plane at p. */
  lemma GradientIsSubgradient(planes: seq<Plane>, p: Vector, q: Vector)
    requires |p| == |q| && InDimension(|p|, planes) && planes != []
    ensures Highest(planes, q) >= Highest(planes, p) + Dot(Slope(planes, p), Minus(q, p))
  {
    hide PlaneValue;
    PlaneIsAffine(planes[Peak(planes, p)], p, q);
    assert IsFirstMaximum(planes, q, Peak(planes, q));
  }

  /** The point at parameter t on the segment from p to q. */
  function Lerp(t: real, p: Vector, q: Vector): (r: Vector)
    requires |p| == |q|
    ensures |r| == |p|
  {
    PlusVec(p, ScaleVec(t, Minus(q, p)))
  }

  lemma LerpOffsets(t: real, p: Vector, q: Vector)
    requires |p| == |q|
    ensures Minus(p, Lerp(t, p, q)) == ScaleVec(-t, Minus(q, p))
    ensures Minus(q, Lerp(t, p, q)) == ScaleVec(1.0 - t, Minus(q, p))
  {
  }

  /** The value on a segment is at most the weighted mean of the values at its ends. */
  lemma ValueIsConvex(planes: seq<Plane>, p: Vector, q: Vector, t: real)
    requires |p| == |q| && InDimension(|p|, planes) && planes != [] && 0.0 <= t <= 1.0
    ensures Highest(planes, Lerp(t, p, q)) <= Combine(1.0 - t, Highest(planes, p), t, Highest(planes, q))
  {
    hide Highest, Slope, Lerp, Dot, Combine;
    var r := Lerp(t, p, q);
    var n := Slope(planes, r);
    GradientIsSubgradient(planes, r, p);
    GradientIsSubgradient(planes, r, q);
    LerpOffsets(t, p, q);
    DotScale(n, -t, Minus(q, p));
    DotScale(n, 1.0 - t, Minus(q, p));
    Weigh(t, Highest(planes, r), Dot(n, Minus(q, p)), Highest(planes, p), Highest(planes, q));
  }

  lemma Weigh(t: real, v: real, d: real, x: real, y: real)
    requires 0.0 <= t <= 1.0 && v + (-t) * d <= x && v + (1.0 - t) * d <= y
    ensures v <= Combine(1.0 - t, x, t, y)
  {
    assert (1.0 - t) * (v + (-t) * d) <= (1.0 - t) * x;
    assert t * (v + (1.0 - t) * d) <= t * y;
  }

  // ----- where the value is zero

  /** p lies in the intersection of the half-spaces. */
  predicate Within(planes: seq<Plane>, p: Vector)
    requires InDimension(|p|, planes)
  {
    forall i :: 0 <= i < |planes| ==> InHalfSpace(planes[i], p)
  }

  lemma WithinIffValues(planes: seq<Plane>, p: Vector)
    requires InDimension(|p|, planes)
    ensures Within(planes, p) <==> forall i :: 0 <= i < |planes| ==> PlaneValue(planes[i], p) <= 0.0
  {
    hide PlaneValue, InHalfSpace;
    forall i | 0 <= i < |planes| ensures InHalfSpace(planes[i], p) <==> PlaneValue(planes[i], p) <= 0.0 {
      PlaneValueMeans(planes[i], p);
    }
  }

  /** The value is at most zero exactly on the intersection of the half-spaces. */
  lemma InsideIsIntersection(planes: seq<Plane>, p: Vector)
    requires InDimension(|p|, planes) && planes != []
    ensures Highest(planes, p) <= 0.0 <==> Within(planes, p)
  {
    hide PlaneValue, Within;
    assert IsFirstMaximum(planes, p, Peak(planes, p));
    WithinIffValues(planes, p);
  }

  /** Every coordinate of q is less than eps from that of p. */
  predicate Near(p: Vector, q: Vector, eps: real) {
    |q| == |p| && forall i :: 0 <= i < |p| ==> -eps < q[i] - p[i] < eps
  }

  /** So is every point near p. */
  ghost predicate WithinNear(planes: seq<Plane>, p: Vector, eps: real)
    requires InDimension(|p|, planes)
  {
    forall q: Vector :: Near(p, q, eps) ==> Within(planes, q)
  }

  ghost predicate Interior(planes: seq<Plane>, p: Vector)
    requires InDimension(|p|, planes)
  {
    exists eps: real :: 0.0 < eps && WithinNear(planes, p, eps)
  }

  /** The surface of the shape: its points with outside points as near as one likes. */
  ghost predicate OnSurface(planes: seq<Plane>, p: Vector)
    requires InDimension(|p|, planes)
  {
    Within(planes, p) && !Interior(planes, p)
  }

  predicate IsZero(v: Vector) {
    forall i :: 0 <= i < |v| ==> v[i] == 0.0
  }

  predicate HasZeroNormal(planes: seq<Plane>) {
    exists i :: 0 <= i < |planes| && IsZero(planes[i].normal)
  }

  /** The sum of the magnitudes of the components. */
  function MagnitudeSum(v: Vector): (r: real)
    ensures 0.0 <= r
  {
    if v == [] then 0.0 else MagnitudeSum(v[..|v| - 1]) + Abs(v[|v| - 1])
  }

  lemma DotUnfolds(u: Vector, v: Vector)
    requires |u| == |v| > 0
    ensures var k := |v| - 1;
            Dot(u, v) == Dot(u[..k], v[..k]) + Product(u[k], v[k])
  {
    var k := |v| - 1;
    SumCong(DotTerms(u, v), DotTerms(u[..k], v[..k]), k);
  }

  lemma ProductBelow(x: real, y: real, eps: real)
    requires -eps < y < eps
    ensures Product(x, y) <= Abs(x) * eps
  {
    if x < 0.0 {
      assert -x * (eps + y) >= 0.0;
    } else {
      assert x * (eps - y) >= 0.0;
    }
  }

  /** A small displacement changes a plane's value little. */
  lemma {:induction false} DotSmall(u: Vector, v: Vector, eps: real)
    requires |u| == |v| && forall i :: 0 <= i < |v| ==> -eps < v[i] < eps
    ensures Dot(u, v) <= MagnitudeSum(u) * eps
  {
    hide Dot, Product;
    if v == [] {
      assert Dot(u, v) == 0.0 by { DotEmpty(u, v); }
    } else {
      var k := |v| - 1;
      DotUnfolds(u, v);
      DotSmall(u[..k], v[..k], eps);
      ProductBelow(u[k], v[k], eps);
      Distribute(MagnitudeSum(u[..k]), Abs(u[k]), eps);
    }
  }

  lemma DotEmpty(u: Vector, v: Vector)
    requires v == []
    ensures Dot(u, v) == 0.0
  {
  }

  lemma Distribute(x: real, y: real, z: real)
    ensures (x + y) * z == x * z + y * z
  {
  }

  lemma SmallEnough(value: real, m: real, eps: real, d: real)
    requires 0.0 < eps && (1.0 + m) * eps == -value && d <= m * eps
    ensures value + d <= 0.0
  {
    Distribute(1.0, m, eps);
  }

  /** The part of a negative value that a displacement may use up. */
  lemma Margin(value: real, m: real) returns (eps: real)
    requires value < 0.0 && 0.0 <= m
    ensures 0.0 < eps && (1.0 + m) * eps == -value
  {
    var sum := 1.0 + m;
    eps := -value / sum;
    assert sum * eps == -value;
  }

  lemma StaysBelowAt(plane: Plane, p: Vector, q: Vector, eps: real)
    requires |plane.origin| == |plane.normal| == |p| && Near(p, q, eps) && 0.0 < eps
    requires (1.0 + MagnitudeSum(plane.normal)) * eps == -PlaneValue(plane, p)
    ensures PlaneValue(plane, q) <= 0.0
  {
    hide PlaneValue, Dot, MagnitudeSum;
    PlaneIsAffine(plane, p, q);
    var d := Dot(plane.normal, Minus(q, p));
    DotSmall(plane.normal, Minus(q, p), eps);
    SmallEnough(PlaneValue(plane, p), MagnitudeSum(plane.normal), eps, d);
  }

  /** How near to p the plane's value surely stays at most zero. */
  lemma PlaneStaysBelow(plane: Plane, p: Vector) returns (eps: real)
    requires |plane.origin| == |plane.normal| == |p| && PlaneValue(plane, p) < 0.0
    ensures 0.0 < eps && forall q: Vector :: Near(p, q, eps) ==> PlaneValue(plane, q) <= 0.0
  {
    hide PlaneValue, MagnitudeSum, Near;
    eps := Margin(PlaneValue(plane, p), MagnitudeSum(plane.normal));
    forall q: Vector | Near(p, q, eps) ensures |q| == |p| && PlaneValue(plane, q) <= 0.0 {
      NearLength(p, q, eps);
      StaysBelowAt(plane, p, q, eps);
    }
  }

  lemma NearMonotone(p: Vector, q: Vector, eps: real, eps': real)
    requires Near(p, q, eps) && eps <= eps'
    ensures Near(p, q, eps')
  {
  }

  /** Where all values are negative, a whole neighbourhood lies within. */
  lemma {:induction false} NegativeIsInterior(planes: seq<Plane>, p: Vector) returns (eps: real)
    requires InDimension(|p|, planes) && forall i :: 0 <= i < |planes| ==> PlaneValue(planes[i], p) < 0.0
    ensures 0.0 < eps && WithinNear(planes, p, eps)
  {
    hide PlaneValue, Near, InHalfSpace;
    if planes == [] {
      eps := 1.0;
      forall q: Vector | Near(p, q, eps) ensures |q| == |p| && Within(planes, q) { NearLength(p, q, eps); }
    } else {
      var k := |planes| - 1;
      var rest := NegativeIsInterior(planes[..k], p);
      var last := PlaneStaysBelow(planes[k], p);
      eps := if rest < last then rest else last;
      forall q: Vector | Near(p, q, eps) ensures |q| == |p| && Within(planes, q) {
        NearLength(p, q, eps);
        NearMonotone(p, q, eps, rest);
        NearMonotone(p, q, eps, last);
        PlaneValueMeans(planes[k], q);
        assert Within(planes[..k], q);
        assert forall i :: 0 <= i < k ==> planes[i] == planes[..k][i];
      }
    }
  }

  lemma NearLength(p: Vector, q: Vector, eps: real)
    requires Near(p, q, eps)
    ensures |q| == |p|
  {
  }

  lemma {:induction false} ComponentBelowSum(v: Vector, i: nat)
    requires i < |v|
    ensures Abs(v[i]) <= MagnitudeSum(v)
  {
    if i == |v| - 1 {
    } else {
      ComponentBelowSum(v[..|v| - 1], i);
    }
  }

  lemma {:induction false} SquareSign(v: Vector)
    ensures 0.0 <= Dot(v, v)
    ensures !IsZero(v) ==> 0.0 < Dot(v, v)
  {
    hide Dot, IsZero, Product;
    if v == [] {
      DotEmpty(v, v);
      EmptyIsZero(v);
    } else {
      var k := |v| - 1;
      DotUnfolds(v, v);
      SquareSign(v[..k]);
      ProductSign(v[k]);
      ZeroUnfolds(v);
    }
  }

  lemma EmptyIsZero(v: Vector)
    requires v == []
    ensures IsZero(v)
  {
  }

  lemma ZeroUnfolds(v: Vector)
    requires v != []
    ensures IsZero(v) <==> IsZero(v[..|v| - 1]) && v[|v| - 1] == 0.0
  {
    assert v == v[..|v| - 1] + [v[|v| - 1]];
  }

  lemma ProductSign(x: real)
    ensures 0.0 <= Product(x, x)
    ensures x != 0.0 ==> 0.0 < Product(x, x)
  {
    if 0.0 < x { ProductPositive(x, x); }
    if x < 0.0 { ProductPositive(-x, -x); }
  }

  lemma StepBelow(x: real, sum: real, t: real, eps: real)
    requires Abs(x) <= sum && 0.0 < t && Product(t, 1.0 + sum) == eps
    ensures -eps < Product(t, x) < eps
  {
    Distribute(1.0, sum, t);
    assert t * x <= t * sum by { assert t * (sum - x) >= 0.0; }
    assert -(t * sum) <= t * x by { assert t * (sum + x) >= 0.0; }
  }

  /** The point p + t n. */
  function Along(p: Vector, t: real, n: Vector): (q: Vector)
    requires |p| == |n|
    ensures |q| == |p|
  {
    PlusVec(p, ScaleVec(t, n))
  }

  lemma AlongAt(p: Vector, t: real, n: Vector, i: nat)
    requires |p| == |n| && i < |p|
    ensures Along(p, t, n)[i] - p[i] == Product(t, n[i])
  {
  }

  lemma AlongIsNear(p: Vector, t: real, n: Vector, eps: real)
    requires |p| == |n| && 0.0 < t && Product(t, 1.0 + MagnitudeSum(n)) == eps
    ensures Near(p, Along(p, t, n), eps)
  {
    hide Along, Product, MagnitudeSum;
    var q := Along(p, t, n);
    forall i | 0 <= i < |p| ensures -eps < q[i] - p[i] < eps {
      AlongAt(p, t, n, i);
      ComponentBelowSum(n, i);
      StepBelow(n[i], MagnitudeSum(n), t, eps);
    }
  }

  /** Along its normal a plane's value grows, unless the normal is zero. */
  lemma AlongIsOutside(plane: Plane, p: Vector, t: real)
    requires |plane.origin| == |plane.normal| == |p| && 0.0 < t
    requires PlaneValue(plane, p) == 0.0 && !IsZero(plane.normal)
    ensures 0.0 < PlaneValue(plane, Along(p, t, plane.normal))
  {
    hide PlaneValue, Dot, IsZero;
    var n := plane.normal;
    PlaneIsAffine(plane, p, Along(p, t, n));
    assert Minus(Along(p, t, n), p) == ScaleVec(t, n);
    DotScale(n, t, n);
    SquareSign(n);
    ProductPositive(t, Dot(n, n));
  }

  lemma ZeroIsNotInterior(planes: seq<Plane>, p: Vector, i: nat)
    requires InDimension(|p|, planes) && i < |planes|
    requires PlaneValue(planes[i], p) == 0.0 && !IsZero(planes[i].normal)
    ensures !Interior(planes, p)
  {
    hide PlaneValue, Near, IsZero, Along, Within;
    forall eps: real | 0.0 < eps ensures !WithinNear(planes, p, eps) {
      var n := planes[i].normal;
      var sum := 1.0 + MagnitudeSum(n);
      var t := eps / sum;
      assert Product(t, sum) == eps;
      ProductPositive(eps, 1.0 / sum);
      AlongIsNear(p, t, n, eps);
      AlongIsOutside(planes[i], p, t);
      WithinIffValues(planes, Along(p, t, n));
    }
  }

  /** With no zero normal, the value is zero exactly on the surface. */
  lemma ZeroIffOnSurface(planes: seq<Plane>, p: Vector)
    requires InDimension(|p|, planes) && planes != [] && !HasZeroNormal(planes)
    ensures Highest(planes, p) == 0.0 <==> OnSurface(planes, p)
  {
    hide PlaneValue, WithinNear, IsZero, Within;
    InsideIsIntersection(planes, p);
    var at := Peak(planes, p);
    assert IsFirstMaximum(planes, p, at);
    if Highest(planes, p) == 0.0 {
      ZeroIsNotInterior(planes, p, at);
    } else if Highest(planes, p) < 0.0 {
      var eps := NegativeIsInterior(planes, p);
    }
  }

  lemma ZeroNormalValue(plane: Plane, p: Vector)
    requires |plane.origin| == |plane.normal| == |p| && IsZero(plane.normal)
    ensures PlaneValue(plane, p) == 0.0
  {
    SumZero(DotTerms(Minus(p, plane.origin), plane.normal), |p|);
  }

  lemma InteriorIsWithin(planes: seq<Plane>, p: Vector)
    requires InDimension(|p|, planes) && Interior(planes, p)
    ensures Within(planes, p)
  {
    hide Within;
    var eps: real :| 0.0 < eps && WithinNear(planes, p, eps);
    assert Near(p, p, eps);
  }

  /** A zero normal makes the value zero on the whole intersection. */
  lemma ZeroNormalLevels(planes: seq<Plane>, p: Vector)
    requires InDimension(|p|, planes) && planes != [] && HasZeroNormal(planes)
    ensures Highest(planes, p) == 0.0 <==> Within(planes, p)
  {
    hide PlaneValue, IsZero, Within;
    InsideIsIntersection(planes, p);
    var i :| 0 <= i < |planes| && IsZero(planes[i].normal);
    ZeroNormalValue(planes[i], p);
    assert IsFirstMaximum(planes, p, Peak(planes, p));
  }

  /** The documented meaning of a zero value, at one point. */
  ghost predicate ZeroMeansSurface(planes: seq<Plane>, p: Vector)
    requires InDimension(|p|, planes) && planes != []
  {
    Highest(planes, p) == 0.0 <==> OnSurface(planes, p)
  }

  /** The value is zero exactly on the surface, at every point, if and only if no normal
      is zero or the intersection has no interior. */
  lemma SurfaceIsZeroIff(n: nat, planes: seq<Plane>)
    requires InDimension(n, planes) && planes != []
    ensures (forall p: Vector :: |p| == n ==> ZeroMeansSurface(planes, p))
       <==> !HasZeroNormal(planes) || forall p: Vector :: |p| == n ==> !Interior(planes, p)
  {
    hide Highest, Within, Interior, HasZeroNormal;
    if HasZeroNormal(planes) {
      forall p: Vector | |p| == n ensures ZeroMeansSurface(planes, p) <==> !Interior(planes, p) {
        ZeroNormalLevels(planes, p);
        if Interior(planes, p) { InteriorIsWithin(planes, p); }
      }
    } else {
      forall p: Vector | |p| == n ensures ZeroMeansSurface(planes, p) { ZeroIffOnSurface(planes, p); }
    }
  }

  /** A plane with a zero normal: the value is zero everywhere and nothing is surface. */
  lemma ZeroNormalPlane(plane: Plane, p: Vector)
    requires |plane.origin| == |plane.normal| == |p| && IsZero(plane.normal)
    ensures Highest([plane], p) == 0.0 && !OnSurface([plane], p)
  {
    hide PlaneValue, IsZero, Near, InHalfSpace;
    ZeroNormalValue(plane, p);
    forall q: Vector | Near(p, q, 1.0) ensures |q| == |p| && Within([plane], q) {
      NearLength(p, q, 1.0);
      ZeroNormalValue(plane, q);
      PlaneValueMeans(plane, q);
    }
    assert WithinNear([plane], p, 1.0);
  }
}
