/** Box::Value (viskores/ImplicitFunction.h) as a signed distance, over exact reals
    with an exact square root given as a function. */
module BoxFunction {
  import opened Arithmetic
  import opened Matrices

  datatype Box = Box(minPoint: Point, maxPoint: Point)

  /** A value of the function: a real, or the negative infinity the running maximum
      starts from. */
  datatype Level = NegativeInfinity | At(value: real)

  // ----- what the loop computes in one dimension

  /** The point lies outside the slab between lo and hi. */
  predicate Outside(lo: real, hi: real, p: real) {
    if hi - lo != 0.0 then
      var t := (p - lo) / (hi - lo);
      t < 0.0 || t > 1.0
    else Abs(p - lo) > 0.0
  }

  /** The signed distance the loop assigns to one dimension. */
  function SlabDistance(lo: real, hi: real, p: real): real {
    if hi - lo != 0.0 then
      var t := (p - lo) / (hi - lo);
      if t < 0.0 then lo - p
      else if t > 1.0 then p - hi
      else if t <= 0.5 then lo - p
      else p - hi
    else Abs(p - lo)
  }

  function Max(level: Level, dist: real): Level {
    if level.NegativeInfinity? || dist > level.value then At(dist) else level
  }

  /** The largest distance over the dimensions before n that are not flat and hold the point. */
  function InnerLevel(box: Box, p: Point, n: nat): Level
    requires n <= 3
  {
    if n == 0 then NegativeInfinity
    else
      var lo, hi, level := box.minPoint[n - 1], box.maxPoint[n - 1], InnerLevel(box, p, n - 1);
      if hi - lo != 0.0 && !Outside(lo, hi, p[n - 1]) then Max(level, SlabDistance(lo, hi, p[n - 1])) else level
  }

  function OuterSquare(box: Box, p: Point, n: nat): real
    requires n <= 3
  {
    if n == 0 then 0.0
    else
      var dist := SlabDistance(box.minPoint[n - 1], box.maxPoint[n - 1], p[n - 1]);
      OuterSquare(box, p, n - 1) + if dist > 0.0 then dist * dist else 0.0
  }

  predicate Inside(box: Box, p: Point, n: nat)
    requires n <= 3
  {
    forall d :: 0 <= d < n ==> !Outside(box.minPoint[d], box.maxPoint[d], p[d])
  }

  /** The value as a function of box and point. */
  function Signed(box: Box, p: Point, sqrt: real -> real): Level {
    if Inside(box, p, 3) then InnerLevel(box, p, 3) else At(sqrt(OuterSquare(box, p, 3)))
  }

  /** The body of the loop, for one dimension: the distance, whether the point is
      outside, and whether the distance is one of the inner ones. */
  method OneDimension(lo: real, hi: real, p: real) returns (dist: real, outside: bool, inner: bool)
    ensures dist == SlabDistance(lo, hi, p) && outside == Outside(lo, hi, p)
    ensures inner == (hi - lo != 0.0 && !outside)
  {
    outside, inner := false, false;
    var diff := hi - lo;
    if diff != 0.0 {
      var t := (p - lo) / diff;
      if t < 0.0 {
        outside := true;
        dist := lo - p;
      } else if t > 1.0 {
        outside := true;
        dist := p - hi;
      } else {
        if t <= 0.5 {
          dist := lo - p;
        } else {
          dist := p - hi;
        }
        inner := true;
      }
    } else {
      dist := Abs(p - lo);
      if dist > 0.0 {
        outside := true;
      }
    }
  }

  lemma NoDimensions(box: Box, p: Point)
    ensures Inside(box, p, 0) && InnerLevel(box, p, 0) == NegativeInfinity && OuterSquare(box, p, 0) == 0.0
  {
  }

  lemma InsideUnfolds(box: Box, p: Point, d: nat)
    requires d < 3
    ensures Inside(box, p, d + 1) == (Inside(box, p, d) && !Outside(box.minPoint[d], box.maxPoint[d], p[d]))
  {
    hide Outside;
  }

  lemma InnerLevelUnfolds(box: Box, p: Point, d: nat)
    requires d < 3
    ensures var lo, hi, level := box.minPoint[d], box.maxPoint[d], InnerLevel(box, p, d);
            InnerLevel(box, p, d + 1)
              == if hi - lo != 0.0 && !Outside(lo, hi, p[d]) then Max(level, SlabDistance(lo, hi, p[d])) else level
  {
    hide SlabDistance, Outside, Max;
  }

  lemma OuterSquareUnfolds(box: Box, p: Point, d: nat)
    requires d < 3
    ensures var dist := SlabDistance(box.minPoint[d], box.maxPoint[d], p[d]);
            OuterSquare(box, p, d + 1) == OuterSquare(box, p, d) + if dist > 0.0 then dist * dist else 0.0
  {
    hide SlabDistance;
  }

  method Value(box: Box, point: Point, sqrt: real -> real) returns (result: Level)
    ensures result == Signed(box, point, sqrt)
  {
    hide SlabDistance, Outside, Inside, InnerLevel, OuterSquare;
    NoDimensions(box, point);
    var minDistance := NegativeInfinity;
    var distance := 0.0;
    var inside := true;
    for d := 0 to 3
      invariant inside == Inside(box, point, d)
      invariant minDistance == InnerLevel(box, point, d)
      invariant distance == OuterSquare(box, point, d)
    {
      var dist, outside, inner := OneDimension(box.minPoint[d], box.maxPoint[d], point[d]);
      InsideUnfolds(box, point, d);
      InnerLevelUnfolds(box, point, d);
      OuterSquareUnfolds(box, point, d);
      if outside {
        inside := false;
      }
      if inner && (minDistance.NegativeInfinity? || dist > minDistance.value) {
        minDistance := At(dist);
      }
      if dist > 0.0 {
        distance := distance + dist * dist;
      }
    }
    distance := sqrt(distance);
    if inside {
      return minDistance;
    } else {
      return At(distance);
    }
  }

  // ----- what it should compute

  predicate Ordered(box: Box) {
    forall d :: 0 <= d < 3 ==> box.minPoint[d] <= box.maxPoint[d]
  }

  predicate InBox(box: Box, q: Point) {
    forall d :: 0 <= d < 3 ==> box.minPoint[d] <= q[d] <= box.maxPoint[d]
  }

  predicate Flat(box: Box, d: nat)
    requires d < 3
  {
    box.minPoint[d] == box.maxPoint[d]
  }

  function Square(x: real): (r: real)
    ensures 0.0 <= r
  {
    x * x
  }

  function SquaredDistance(p: Point, q: Point): real {
    Square(p[0] - q[0]) + Square(p[1] - q[1]) + Square(p[2] - q[2])
  }

  function Nearest(lo: real, hi: real, p: real): real {
    if p < lo then lo else if hi < p then hi else p
  }

  /** The box point nearest to p. */
  function Clamp(box: Box, p: Point): Point {
    [Nearest(box.minPoint[0], box.maxPoint[0], p[0]),
     Nearest(box.minPoint[1], box.maxPoint[1], p[1]),
     Nearest(box.minPoint[2], box.maxPoint[2], p[2])]
  }

  ghost predicate IsRoot(sqrt: real -> real) {
    forall m: real :: 0.0 <= m ==> 0.0 <= sqrt(m) && Square(sqrt(m)) == m
  }

  // ----- one dimension

  function Product(x: real, y: real): real {
    x * y
  }

  lemma ProductPositive(x: real, y: real)
    requires 0.0 < x && 0.0 < y
    ensures 0.0 < Product(x, y)
  {
  }

  lemma ProductMinus(x: real, y: real, e: real)
    ensures Product(x - y, e) == Product(x, e) - Product(y, e)
  {
  }

  lemma ScaleOrder(t: real, c: real, e: real)
    requires 0.0 < e
    ensures t < c <==> Product(t, e) < Product(c, e)
    ensures c < t <==> Product(c, e) < Product(t, e)
  {
    hide Product;
    ProductMinus(c, t, e);
    ProductMinus(t, c, e);
    if t < c { ProductPositive(c - t, e); }
    if c < t { ProductPositive(t - c, e); }
  }

  lemma Multiples(x: real, e: real)
    requires e != 0.0
    ensures Product(x / e, e) == x && Product(0.0, e) == 0.0 && Product(1.0, e) == e && Product(0.5, e) == e / 2.0
  {
  }

  /** The division by the extent only decides on which side of the slab p is. */
  lemma Ratio(lo: real, hi: real, p: real)
    requires lo < hi
    ensures var t := (p - lo) / (hi - lo);
            (t < 0.0 <==> p < lo) && (t > 1.0 <==> p > hi) && (t <= 0.5 <==> p - lo <= hi - p)
  {
    hide Product;
    var t, e := (p - lo) / (hi - lo), hi - lo;
    Multiples(p - lo, e);
    ScaleOrder(t, 0.0, e);
    ScaleOrder(t, 1.0, e);
    ScaleOrder(t, 0.5, e);
  }

  lemma Slab(lo: real, hi: real, p: real)
    requires lo <= hi
    ensures Outside(lo, hi, p) <==> p < lo || hi < p
    ensures SlabDistance(lo, hi, p) > 0.0 <==> p < lo || hi < p
    ensures p < lo || hi < p ==> SlabDistance(lo, hi, p) == Abs(p - Nearest(lo, hi, p))
    ensures lo <= p <= hi && lo < hi ==> SlabDistance(lo, hi, p) == if p - lo <= hi - p then lo - p else p - hi
  {
    if lo < hi { Ratio(lo, hi, p); }
  }

  lemma NearestIsNearest(lo: real, hi: real, p: real, q: real)
    requires lo <= q <= hi
    ensures Square(p - Nearest(lo, hi, p)) <= Square(p - q)
  {
    var n := Nearest(lo, hi, p);
    if p < lo {
      SquareOrder(lo - p, q - p);
      SquareNegate(p - lo);
      SquareNegate(p - q);
    } else if hi < p {
      SquareOrder(p - hi, p - q);
    }
  }

  lemma SquareIsProduct(x: real)
    ensures Square(x) == Product(x, x) == Product(-x, -x)
  {
  }

  lemma SquareDifference(x: real, y: real)
    ensures Square(y) - Square(x) == Product(y - x, y + x)
  {
  }

  lemma SquarePositive(x: real)
    requires x != 0.0
    ensures 0.0 < Square(x)
  {
    hide Product, Square;
    SquareIsProduct(x);
    if 0.0 < x { ProductPositive(x, x); } else { ProductPositive(-x, -x); }
  }

  lemma SquareOrder(x: real, y: real)
    requires 0.0 <= x
    ensures x <= y ==> Square(x) <= Square(y)
    ensures 0.0 <= y && Square(x) <= Square(y) ==> x <= y
    ensures 0.0 <= y && x < y ==> Square(x) < Square(y)
  {
    hide Square, Product;
    SquareDifference(x, y);
    SquareDifference(y, x);
    if 0.0 < y - x && 0.0 < y + x {
      ProductPositive(y - x, y + x);
    } else if 0.0 < x - y && 0.0 < x + y {
      ProductPositive(x - y, x + y);
    }
  }

  lemma SquareNegate(x: real)
    ensures Square(-x) == Square(x) == Square(Abs(x))
  {
    assert (-x) * (-x) == x * x;
  }

  // ----- outside the box

  lemma InsideIffInBox(box: Box, p: Point)
    requires Ordered(box)
    ensures Inside(box, p, 3) <==> InBox(box, p)
  {
    Slab(box.minPoint[0], box.maxPoint[0], p[0]);
    Slab(box.minPoint[1], box.maxPoint[1], p[1]);
    Slab(box.minPoint[2], box.maxPoint[2], p[2]);
  }

  lemma SlabSquare(lo: real, hi: real, p: real)
    requires lo <= hi
    ensures var dist := SlabDistance(lo, hi, p);
            (if dist > 0.0 then dist * dist else 0.0) == Square(p - Nearest(lo, hi, p))
  {
    Slab(lo, hi, p);
    SquareNegate(p - Nearest(lo, hi, p));
  }

  lemma OuterIsClampDistance(box: Box, p: Point)
    requires Ordered(box)
    ensures OuterSquare(box, p, 3) == SquaredDistance(p, Clamp(box, p))
  {
    hide SlabDistance, Square;
    SlabSquare(box.minPoint[0], box.maxPoint[0], p[0]);
    SlabSquare(box.minPoint[1], box.maxPoint[1], p[1]);
    SlabSquare(box.minPoint[2], box.maxPoint[2], p[2]);
    assert OuterSquare(box, p, 1) == Square(p[0] - Clamp(box, p)[0]);
    assert OuterSquare(box, p, 2) == Square(p[0] - Clamp(box, p)[0]) + Square(p[1] - Clamp(box, p)[1]);
  }

  lemma ClampIsNearest(box: Box, p: Point, q: Point)
    requires Ordered(box) && InBox(box, q)
    ensures InBox(box, Clamp(box, p)) && SquaredDistance(p, Clamp(box, p)) <= SquaredDistance(p, q)
  {
    hide Square;
    NearestIsNearest(box.minPoint[0], box.maxPoint[0], p[0], q[0]);
    NearestIsNearest(box.minPoint[1], box.maxPoint[1], p[1], q[1]);
    NearestIsNearest(box.minPoint[2], box.maxPoint[2], p[2], q[2]);
  }

  /** Outside, the value is positive and its square is the least squared distance to
      a point of the box, attained at the clamped point. */
  lemma OutsideIsDistance(box: Box, p: Point, sqrt: real -> real)
    requires Ordered(box) && IsRoot(sqrt) && !InBox(box, p)
    ensures var v := Signed(box, p, sqrt);
            && v.At? && 0.0 < v.value
            && InBox(box, Clamp(box, p)) && Square(v.value) == SquaredDistance(p, Clamp(box, p))
            && (forall q: Point :: InBox(box, q) ==> Square(v.value) <= SquaredDistance(p, q))
  {
    assert Square(0.0) == 0.0;
    hide Square, OuterSquare;
    InsideIffInBox(box, p);
    OuterIsClampDistance(box, p);
    var m := SquaredDistance(p, Clamp(box, p));
    assert 0.0 <= m;
    assert 0.0 <= sqrt(m) && Square(sqrt(m)) == m;
    ClampIsNearest(box, p, box.minPoint);
    ClampDiffers(box, p);
    forall q: Point | InBox(box, q) ensures m <= SquaredDistance(p, q) { ClampIsNearest(box, p, q); }
  }

  lemma ClampDiffers(box: Box, p: Point)
    requires Ordered(box) && !InBox(box, p)
    ensures 0.0 < SquaredDistance(p, Clamp(box, p))
  {
    hide Square;
    var d :| 0 <= d < 3 && !(box.minPoint[d] <= p[d] <= box.maxPoint[d]);
    SquarePositive(p[d] - Clamp(box, p)[d]);
  }

  // ----- inside the box

  /** How far p is from the nearer of the two faces of dimension d. */
  function FaceDistance(box: Box, p: Point, d: nat): real
    requires d < 3
  {
    var below, above := p[d] - box.minPoint[d], box.maxPoint[d] - p[d];
    if below <= above then below else above
  }

  predicate Solid(box: Box) {
    forall d :: 0 <= d < 3 ==> box.minPoint[d] < box.maxPoint[d]
  }

  lemma InnerDistance(box: Box, p: Point, d: nat)
    requires d < 3 && box.minPoint[d] < box.maxPoint[d] && box.minPoint[d] <= p[d] <= box.maxPoint[d]
    ensures SlabDistance(box.minPoint[d], box.maxPoint[d], p[d]) == -FaceDistance(box, p, d)
    ensures !Outside(box.minPoint[d], box.maxPoint[d], p[d])
  {
    Slab(box.minPoint[d], box.maxPoint[d], p[d]);
  }

  /** The level is minus the least face distance over the dimensions that are not
      flat, and it is minus infinity exactly when all are flat. */
  lemma {:induction false} InnerLevelIsLeast(box: Box, p: Point, n: nat)
    requires Ordered(box) && InBox(box, p) && n <= 3
    ensures InnerLevel(box, p, n).NegativeInfinity? <==> forall d :: 0 <= d < n ==> Flat(box, d)
    ensures InnerLevel(box, p, n).At? ==> (
      && (forall d :: 0 <= d < n && !Flat(box, d) ==> -InnerLevel(box, p, n).value <= FaceDistance(box, p, d))
      && (exists d :: 0 <= d < n && !Flat(box, d) && -InnerLevel(box, p, n).value == FaceDistance(box, p, d)))
  {
    hide SlabDistance, Outside;
    if n == 0 {
    } else {
      InnerLevelIsLeast(box, p, n - 1);
      if !Flat(box, n - 1) { InnerDistance(box, p, n - 1); }
    }
  }

  /** Every point within radius of p is in the box. */
  ghost predicate BallInside(box: Box, p: Point, radius: real) {
    forall q: Point :: SquaredDistance(p, q) <= Square(radius) ==> InBox(box, q)
  }

  lemma CoordinateClose(p: Point, q: Point, r: real, d: nat)
    requires d < 3 && 0.0 <= r && SquaredDistance(p, q) <= Square(r)
    ensures -r <= p[d] - q[d] <= r
  {
    SquareNegate(p[d] - q[d]);
    hide Square;
    assert Square(p[d] - q[d]) <= Square(r);
    SquareOrder(Abs(p[d] - q[d]), r);
    SquareOrder(r, Abs(p[d] - q[d]));
  }

  /** The ball with radius the least face distance fits. */
  lemma BallFits(box: Box, p: Point, r: real)
    requires 0.0 <= r && forall d :: 0 <= d < 3 ==> r <= FaceDistance(box, p, d)
    ensures BallInside(box, p, r)
  {
    hide SquaredDistance, Square;
    forall q: Point | SquaredDistance(p, q) <= Square(r) ensures InBox(box, q) {
      CoordinateClose(p, q, r, 0);
      CoordinateClose(p, q, r, 1);
      CoordinateClose(p, q, r, 2);
      assert r <= FaceDistance(box, p, 0) && r <= FaceDistance(box, p, 1) && r <= FaceDistance(box, p, 2);
    }
  }

  /** No ball reaches past a face. */
  lemma BallStops(box: Box, p: Point, r: real, d: nat)
    requires d < 3 && InBox(box, p) && FaceDistance(box, p, d) < r
    ensures !BallInside(box, p, r)
  {
    var below := p[d] - box.minPoint[d] <= box.maxPoint[d] - p[d];
    var q: Point := p[d := if below then p[d] - r else p[d] + r];
    SquareNegate(r);
    assert Square(0.0) == 0.0;
    hide Square;
    assert forall e :: 0 <= e < 3 && e != d ==> p[e] - q[e] == 0.0;
    assert p[d] - q[d] == if below then r else -r;
    assert SquaredDistance(p, q) == Square(r);
    assert !InBox(box, q);
  }

  /** In a solid box, the value at a point of the box is minus the radius of the
      largest ball about it that stays in the box. */
  lemma InsideIsBallRadius(box: Box, p: Point, sqrt: real -> real)
    requires Solid(box) && InBox(box, p)
    ensures var v := Signed(box, p, sqrt);
            && v.At? && v.value <= 0.0
            && BallInside(box, p, -v.value)
            && (forall r: real :: -v.value < r ==> !BallInside(box, p, r))
  {
    hide InnerLevel, BallInside;
    InsideIffInBox(box, p);
    InnerLevelIsLeast(box, p, 3);
    assert !Flat(box, 0) && !Flat(box, 1) && !Flat(box, 2);
    var v := InnerLevel(box, p, 3).value;
    var d :| 0 <= d < 3 && !Flat(box, d) && -v == FaceDistance(box, p, d);
    BallFits(box, p, -v);
    forall r: real | -v < r ensures !BallInside(box, p, r) { BallStops(box, p, r, d); }
  }

  /** In a solid box the value is zero exactly on the surface: the points of the box
      on one of its faces. */
  lemma ZeroOnSurface(box: Box, p: Point, sqrt: real -> real)
    requires Solid(box) && IsRoot(sqrt)
    ensures Signed(box, p, sqrt) == At(0.0) <==> InBox(box, p) && exists d :: 0 <= d < 3 && FaceDistance(box, p, d) == 0.0
  {
    hide InnerLevel, Square, SquaredDistance;
    if InBox(box, p) {
      InsideIffInBox(box, p);
      InnerLevelIsLeast(box, p, 3);
      assert !Flat(box, 0) && !Flat(box, 1) && !Flat(box, 2);
    } else {
      OutsideIsDistance(box, p, sqrt);
    }
  }

  // ----- flat boxes

  /** A box with a flat dimension has no interior, so each of its points is on its
      surface; the value there is zero only on the faces of the other dimensions. */
  lemma FlatBox(box: Box, p: Point, sqrt: real -> real)
    requires Ordered(box) && InBox(box, p)
    ensures Signed(box, p, sqrt) == At(0.0) <==> exists d :: 0 <= d < 3 && !Flat(box, d) && FaceDistance(box, p, d) == 0.0
    ensures Signed(box, p, sqrt) == NegativeInfinity <==> forall d :: 0 <= d < 3 ==> Flat(box, d)
  {
    hide InnerLevel;
    InsideIffInBox(box, p);
    InnerLevelIsLeast(box, p, 3);
  }

  /** On a box with some dimension that is not flat, the value at a point of the box is
      minus the least distance to a face of those dimensions. */
  lemma FlatBoxValue(box: Box, p: Point, sqrt: real -> real)
    requires Ordered(box) && InBox(box, p) && exists d :: 0 <= d < 3 && !Flat(box, d)
    ensures var r := Signed(box, p, sqrt);
            && r.At?
            && (forall d :: 0 <= d < 3 && !Flat(box, d) ==> -r.value <= FaceDistance(box, p, d))
            && (exists d :: 0 <= d < 3 && !Flat(box, d) && -r.value == FaceDistance(box, p, d))
  {
    hide InnerLevel;
    InsideIffInBox(box, p);
    InnerLevelIsLeast(box, p, 3);
  }

  /** The middle of a flat square: on the surface, and yet of value minus one. */
  lemma FlatSquare(sqrt: real -> real)
    ensures var box := Box([0.0, 0.0, 0.0], [2.0, 2.0, 0.0]);
            Ordered(box) && InBox(box, [1.0, 1.0, 0.0]) && Signed(box, [1.0, 1.0, 0.0], sqrt) == At(-1.0)
  {
    var box, p := Box([0.0, 0.0, 0.0], [2.0, 2.0, 0.0]), [1.0, 1.0, 0.0];
    InsideIffInBox(box, p);
    InnerLevelIsLeast(box, p, 3);
    assert !Flat(box, 0) && Flat(box, 2);
  }

  predicate OnSurface(box: Box, p: Point) {
    InBox(box, p) && exists d :: 0 <= d < 3 && FaceDistance(box, p, d) == 0.0
  }

  function Center(box: Box): Point {
    [(box.minPoint[0] + box.maxPoint[0]) / 2.0,
     (box.minPoint[1] + box.maxPoint[1]) / 2.0,
     (box.minPoint[2] + box.maxPoint[2]) / 2.0]
  }

  /** The documented meaning of zero, the points on the surface, holds of a box
      exactly when the box has no flat dimension. */
  lemma SurfaceIsZeroIffSolid(box: Box, sqrt: real -> real)
    requires Ordered(box) && IsRoot(sqrt)
    ensures (forall p: Point :: OnSurface(box, p) ==> Signed(box, p, sqrt) == At(0.0)) <==> Solid(box)
  {
    hide InnerLevel, Signed;
    if Solid(box) {
      forall p: Point | OnSurface(box, p) ensures Signed(box, p, sqrt) == At(0.0) { ZeroOnSurface(box, p, sqrt); }
    } else {
      var d: nat :| d < 3 && !(box.minPoint[d] < box.maxPoint[d]);
      assert Center(box)[d] == (box.minPoint[d] + box.maxPoint[d]) / 2.0;
      assert FaceDistance(box, Center(box), d) == 0.0;
      assert OnSurface(box, Center(box));
      FlatBox(box, Center(box), sqrt);
    }
  }
}
