/**
 * The planar constructions on (latitude, longitude) pairs: circumcenter, centroid, midpoint,
 * bounding box, the ray-casting point-in-polygon test and the orthocenter. The pairs are
 * treated as points of a flat plane, the first coordinate as `x` and the second as `y`, and
 * the arithmetic is exact over `real`.
 */
module Geometry {
  import opened Wrappers

  /** A `(latitude, longitude)` tuple. */
  datatype Point = Point(lat: real, lon: real)

  /** The exceptions the constructions raise. `NonFinite` stands for the one case where the
      orthocenter returns a coordinate that is `inf` or `nan` instead of raising. */
  datatype GeometryError = Collinear | EmptyPoints | DivisionByZero | NonFinite

  function Abs(r: real): real { if r < 0.0 then -r else r }

  function Max(a: real, b: real): real { if a < b then b else a }

  function Min(a: real, b: real): real { if a < b then a else b }

  /** Squared Euclidean distance in the plane. */
  function SqDist(p: Point, q: Point): real
  {
    (p.lat - q.lat) * (p.lat - q.lat) + (p.lon - q.lon) * (p.lon - q.lon)
  }

  // ---------------------------------------------------------------------------------------
  // circumcenter
  // ---------------------------------------------------------------------------------------

  /** `x1 * (y2 - y3) + x2 * (y3 - y1) + x3 * (y1 - y2)`: twice the signed area. */
  function Determinant(x1: real, y1: real, x2: real, y2: real, x3: real, y3: real): real
  {
    x1 * (y2 - y3) + x2 * (y3 - y1) + x3 * (y1 - y2)
  }

  /** `n1 * c1 + n2 * c2 + n3 * c3`: the numerators of the closed form weigh the squared
      norms of the three vertices. */
  function Weighted(n1: real, n2: real, n3: real, c1: real, c2: real, c3: real): real
  {
    n1 * c1 + n2 * c2 + n3 * c3
  }

  /** The numerators of the closed form of the circumcenter: `ux = NumeratorX / d` and
      `uy = NumeratorY / d` with `d = 2 * Determinant`. */
  function NumeratorX(x1: real, y1: real, x2: real, y2: real, x3: real, y3: real): real
  {
    Weighted(x1 * x1 + y1 * y1, x2 * x2 + y2 * y2, x3 * x3 + y3 * y3, y2 - y3, y3 - y1, y1 - y2)
  }

  function NumeratorY(x1: real, y1: real, x2: real, y2: real, x3: real, y3: real): real
  {
    Weighted(x1 * x1 + y1 * y1, x2 * x2 + y2 * y2, x3 * x3 + y3 * y3, x3 - x2, x1 - x3, x2 - x1)
  }

  function Det(p1: Point, p2: Point, p3: Point): real
  {
    Determinant(p1.lat, p1.lon, p2.lat, p2.lon, p3.lat, p3.lon)
  }

  /** `0.5 * abs(...)`: the area of the triangle. */
  function Area(p1: Point, p2: Point, p3: Point): real
  {
    0.5 * Abs(Det(p1, p2, p3))
  }

  /** Python's `math.isclose(a, b, rel_tol=1e-9, abs_tol=absTol)`. */
  predicate IsClose(a: real, b: real, absTol: real)
  {
    Abs(a - b) <= Max(0.000000001 * Max(Abs(a), Abs(b)), absTol)
  }

  /** The `abs_tol` of the collinearity test. */
  const CollinearTolerance: real := 0.0000000001

  /** Close to zero within the tolerance is the same as at most the tolerance: the relative
      part of `isclose` never helps against zero. */
  lemma IsCloseToZero(a: real)
    requires a >= 0.0
    ensures IsClose(a, 0.0, CollinearTolerance) <==> a <= CollinearTolerance
  {
  }

  /** `circumcenter(point1, point2, point3)`: `ValueError` when the area is within `1e-10` of
      zero, otherwise the closed form with `d = 2 * (x1 * (y2 - y3) + ...)`. */
  function Circumcenter(p1: Point, p2: Point, p3: Point): (r: Result<Point, GeometryError>)
    ensures r.Err? <==> Area(p1, p2, p3) <= CollinearTolerance
    ensures r.Err? ==> r.error == Collinear
  {
    IsCloseToZero(Area(p1, p2, p3));
    if IsClose(Area(p1, p2, p3), 0.0, CollinearTolerance) then Err(Collinear)
    else
      var (x1, y1, x2, y2, x3, y3) := (p1.lat, p1.lon, p2.lat, p2.lon, p3.lat, p3.lon);
      var d := 2.0 * Determinant(x1, y1, x2, y2, x3, y3);
      Ok(Point(NumeratorX(x1, y1, x2, y2, x3, y3) / d, NumeratorY(x1, y1, x2, y2, x3, y3) / d))
  }

  /** `(wx, wy)` dotted with `(dx, dy)` is `det * m`. */
  predicate DotIs(wx: real, wy: real, dx: real, dy: real, det: real, m: real)
  {
    wx * dx + wy * dy == det * m
  }

  /** The identity behind equidistance from the first two vertices, with the squared norms
      `n1`, `n2`, `n3` held abstract: the numerator pair dotted with `p1 - p2` is
      `det * (n1 - n2)`. */
  lemma WeightedIdentity(n1: real, n2: real, n3: real, x1: real, y1: real, x2: real, y2: real, x3: real, y3: real)
    ensures DotIs(Weighted(n1, n2, n3, y2 - y3, y3 - y1, y1 - y2), Weighted(n1, n2, n3, x3 - x2, x1 - x3, x2 - x1),
                  x1 - x2, y1 - y2, Determinant(x1, y1, x2, y2, x3, y3), n1 - n2)
  {
  }

  /** The same with `p1 - p3`: the product is `det * (n1 - n3)`. */
  lemma WeightedIdentity3(n1: real, n2: real, n3: real, x1: real, y1: real, x2: real, y2: real, x3: real, y3: real)
    ensures DotIs(Weighted(n1, n2, n3, y2 - y3, y3 - y1, y1 - y2), Weighted(n1, n2, n3, x3 - x2, x1 - x3, x2 - x1),
                  x1 - x3, y1 - y3, Determinant(x1, y1, x2, y2, x3, y3), n1 - n3)
  {
  }

  lemma QuotientTimes(u: real, n: real, d: real)
    requires d != 0.0 && u == n / d
    ensures u * d == n
  {
  }

  /** A point whose coordinates times `2 * det` are the numerators is as far from `(x1, y1)` as
      from `(x2, y2)` when the identity of the pair holds. */
  lemma EquidistantPair(ux: real, uy: real, x1: real, y1: real, x2: real, y2: real, nx: real, ny: real, det: real)
    requires det != 0.0 && ux * (2.0 * det) == nx && uy * (2.0 * det) == ny
    requires nx * (x1 - x2) + ny * (y1 - y2) == det * ((x1 * x1 + y1 * y1) - (x2 * x2 + y2 * y2))
    ensures (ux - x1) * (ux - x1) + (uy - y1) * (uy - y1) == (ux - x2) * (ux - x2) + (uy - y2) * (uy - y2)
  {
    var k := 2.0 * (ux * (x1 - x2) + uy * (y1 - y2));
    assert k * det == nx * (x1 - x2) + ny * (y1 - y2);
    assert k * det == det * ((x1 * x1 + y1 * y1) - (x2 * x2 + y2 * y2));
    assert k == (x1 * x1 + y1 * y1) - (x2 * x2 + y2 * y2);
  }

  /** The quotients `nx / (2 det)`, `ny / (2 det)` are equally far from `(x1, y1)` and
      `(x2, y2)` once the identity of the pair holds; the numerators are abstract here, which
      keeps the division apart from their polynomials. */
  lemma QuotientsEquidistant(x1: real, y1: real, x2: real, y2: real, ux: real, uy: real, det: real,
                             nx: real, ny: real, wx: real, wy: real)
    requires det != 0.0
    requires ux == nx / (2.0 * det)
    requires uy == ny / (2.0 * det)
    requires nx == wx
    requires ny == wy
    requires DotIs(wx, wy, x1 - x2, y1 - y2, det, (x1 * x1 + y1 * y1) - (x2 * x2 + y2 * y2))
    ensures (ux - x1) * (ux - x1) + (uy - y1) * (uy - y1) == (ux - x2) * (ux - x2) + (uy - y2) * (uy - y2)
  {
    QuotientTimes(ux, nx, 2.0 * det);
    QuotientTimes(uy, ny, 2.0 * det);
    EquidistantPair(ux, uy, x1, y1, x2, y2, wx, wy, det);
  }

  /** The circumcenter, when there is one, is the pair of quotients of the closed form. */
  lemma CircumcenterQuotients(p1: Point, p2: Point, p3: Point)
    requires Circumcenter(p1, p2, p3).Ok?
    ensures 2.0 * Determinant(p1.lat, p1.lon, p2.lat, p2.lon, p3.lat, p3.lon) != 0.0
    ensures Circumcenter(p1, p2, p3).value.lat
      == NumeratorX(p1.lat, p1.lon, p2.lat, p2.lon, p3.lat, p3.lon) / (2.0 * Determinant(p1.lat, p1.lon, p2.lat, p2.lon, p3.lat, p3.lon))
    ensures Circumcenter(p1, p2, p3).value.lon
      == NumeratorY(p1.lat, p1.lon, p2.lat, p2.lon, p3.lat, p3.lon) / (2.0 * Determinant(p1.lat, p1.lon, p2.lat, p2.lon, p3.lat, p3.lon))
  {
  }

  /** The closed form, as a point, is equally far from the three vertices. */
  lemma ClosedFormEquidistant(p1: Point, p2: Point, p3: Point, u: Point)
    requires 2.0 * Determinant(p1.lat, p1.lon, p2.lat, p2.lon, p3.lat, p3.lon) != 0.0
    requires u.lat == NumeratorX(p1.lat, p1.lon, p2.lat, p2.lon, p3.lat, p3.lon) / (2.0 * Determinant(p1.lat, p1.lon, p2.lat, p2.lon, p3.lat, p3.lon))
    requires u.lon == NumeratorY(p1.lat, p1.lon, p2.lat, p2.lon, p3.lat, p3.lon) / (2.0 * Determinant(p1.lat, p1.lon, p2.lat, p2.lon, p3.lat, p3.lon))
    ensures SqDist(u, p1) == SqDist(u, p2) && SqDist(u, p1) == SqDist(u, p3)
  {
    ClosedFormCoordinates(p1.lat, p1.lon, p2.lat, p2.lon, p3.lat, p3.lon, u.lat, u.lon);
    ClosedFormCoordinates3(p1.lat, p1.lon, p2.lat, p2.lon, p3.lat, p3.lon, u.lat, u.lon);
    SquaredDistances(p1.lat, p1.lon, p2.lat, p2.lon, p3.lat, p3.lon, u.lat, u.lon);
  }

  /** The polynomial form of equal distances is the same statement on points. */
  lemma SquaredDistances(x1: real, y1: real, x2: real, y2: real, x3: real, y3: real, ux: real, uy: real)
    requires (ux - x1) * (ux - x1) + (uy - y1) * (uy - y1) == (ux - x2) * (ux - x2) + (uy - y2) * (uy - y2)
    requires (ux - x1) * (ux - x1) + (uy - y1) * (uy - y1) == (ux - x3) * (ux - x3) + (uy - y3) * (uy - y3)
    ensures SqDist(Point(ux, uy), Point(x1, y1)) == SqDist(Point(ux, uy), Point(x2, y2))
    ensures SqDist(Point(ux, uy), Point(x1, y1)) == SqDist(Point(ux, uy), Point(x3, y3))
  {
  }

  /** The closed form over the six coordinates is equally far from the first two vertices. */
  lemma ClosedFormCoordinates(x1: real, y1: real, x2: real, y2: real, x3: real, y3: real, ux: real, uy: real)
    requires 2.0 * Determinant(x1, y1, x2, y2, x3, y3) != 0.0
    requires ux == NumeratorX(x1, y1, x2, y2, x3, y3) / (2.0 * Determinant(x1, y1, x2, y2, x3, y3))
    requires uy == NumeratorY(x1, y1, x2, y2, x3, y3) / (2.0 * Determinant(x1, y1, x2, y2, x3, y3))
    ensures (ux - x1) * (ux - x1) + (uy - y1) * (uy - y1) == (ux - x2) * (ux - x2) + (uy - y2) * (uy - y2)
  {
    WeightedIdentity(x1 * x1 + y1 * y1, x2 * x2 + y2 * y2, x3 * x3 + y3 * y3, x1, y1, x2, y2, x3, y3);
    QuotientsEquidistant(x1, y1, x2, y2, ux, uy, Determinant(x1, y1, x2, y2, x3, y3),
      NumeratorX(x1, y1, x2, y2, x3, y3), NumeratorY(x1, y1, x2, y2, x3, y3),
      Weighted(x1 * x1 + y1 * y1, x2 * x2 + y2 * y2, x3 * x3 + y3 * y3, y2 - y3, y3 - y1, y1 - y2),
      Weighted(x1 * x1 + y1 * y1, x2 * x2 + y2 * y2, x3 * x3 + y3 * y3, x3 - x2, x1 - x3, x2 - x1));
  }

  /** The closed form over the six coordinates is equally far from the first and the third
      vertex. */
  lemma ClosedFormCoordinates3(x1: real, y1: real, x2: real, y2: real, x3: real, y3: real, ux: real, uy: real)
    requires 2.0 * Determinant(x1, y1, x2, y2, x3, y3) != 0.0
    requires ux == NumeratorX(x1, y1, x2, y2, x3, y3) / (2.0 * Determinant(x1, y1, x2, y2, x3, y3))
    requires uy == NumeratorY(x1, y1, x2, y2, x3, y3) / (2.0 * Determinant(x1, y1, x2, y2, x3, y3))
    ensures (ux - x1) * (ux - x1) + (uy - y1) * (uy - y1) == (ux - x3) * (ux - x3) + (uy - y3) * (uy - y3)
  {
    WeightedIdentity3(x1 * x1 + y1 * y1, x2 * x2 + y2 * y2, x3 * x3 + y3 * y3, x1, y1, x2, y2, x3, y3);
    QuotientsEquidistant(x1, y1, x3, y3, ux, uy, Determinant(x1, y1, x2, y2, x3, y3),
      NumeratorX(x1, y1, x2, y2, x3, y3), NumeratorY(x1, y1, x2, y2, x3, y3),
      Weighted(x1 * x1 + y1 * y1, x2 * x2 + y2 * y2, x3 * x3 + y3 * y3, y2 - y3, y3 - y1, y1 - y2),
      Weighted(x1 * x1 + y1 * y1, x2 * x2 + y2 * y2, x3 * x3 + y3 * y3, x3 - x2, x1 - x3, x2 - x1));
  }

  /** The circumcenter is equally far from the three vertices. */
  lemma CircumcenterEquidistant(p1: Point, p2: Point, p3: Point)
    requires Circumcenter(p1, p2, p3).Ok?
    ensures var u := Circumcenter(p1, p2, p3).value;
      SqDist(u, p1) == SqDist(u, p2) && SqDist(u, p1) == SqDist(u, p3)
  {
    CircumcenterQuotients(p1, p2, p3);
    ClosedFormEquidistant(p1, p2, p3, Circumcenter(p1, p2, p3).value);
  }

  /** `x**2 + y**2`. */
  function Norm2(p: Point): real { p.lat * p.lat + p.lon * p.lon }

  /** `2 * (x * a + y * b) == c`: `(x, y)` solves one linear equation. */
  predicate Solves(x: real, y: real, a: real, b: real, c: real)
  {
    2.0 * (x * a + y * b) == c
  }

  /** `(dx, dy)` is orthogonal to `(a, b)`. */
  predicate Orthogonal(dx: real, dy: real, a: real, b: real)
  {
    dx * a + dy * b == 0.0
  }

  /** The determinant `a1 * b2 - a2 * b1` of the vectors `(a1, b1)` and `(a2, b2)`. */
  function Cross(a1: real, b1: real, a2: real, b2: real): real
  {
    a1 * b2 - a2 * b1
  }

  /** Equal distance to `a` and `b` is a linear equation in the point. */
  lemma EquidistantLinear(q: Point, a: Point, b: Point)
    ensures SqDist(q, a) == SqDist(q, b) <==> Solves(q.lat, q.lon, a.lat - b.lat, a.lon - b.lon, Norm2(a) - Norm2(b))
  {
    SqDistExpanded(q, a);
    SqDistExpanded(q, b);
  }

  /** `|q - a|^2 = |q|^2 - 2 q.a + |a|^2`. */
  lemma SqDistExpanded(q: Point, a: Point)
    ensures SqDist(q, a) == Norm2(q) - 2.0 * (q.lat * a.lat + q.lon * a.lon) + Norm2(a)
  {
  }

  /** Two solutions of a 2x2 homogeneous-difference system with a non-zero determinant agree. */
  lemma UniqueSolution(dx: real, dy: real, a1: real, b1: real, a2: real, b2: real)
    requires Cross(a1, b1, a2, b2) != 0.0
    requires Orthogonal(dx, dy, a1, b1) && Orthogonal(dx, dy, a2, b2)
    ensures dx == 0.0 && dy == 0.0
  {
    assert dx * (a1 * b2 - a2 * b1) == (dx * a1 + dy * b1) * b2 - (dx * a2 + dy * b2) * b1;
    assert dy * (a1 * b2 - a2 * b1) == (dx * a2 + dy * b2) * a1 - (dx * a1 + dy * b1) * a2;
  }

  /** Equal distance to the three vertices is a pair of linear equations in the point. */
  lemma EquidistantEquations(q: Point, p1: Point, p2: Point, p3: Point)
    requires SqDist(q, p1) == SqDist(q, p2) && SqDist(q, p1) == SqDist(q, p3)
    ensures Solves(q.lat, q.lon, p1.lat - p2.lat, p1.lon - p2.lon, Norm2(p1) - Norm2(p2))
    ensures Solves(q.lat, q.lon, p1.lat - p3.lat, p1.lon - p3.lon, Norm2(p1) - Norm2(p3))
  {
    EquidistantLinear(q, p1, p2);
    EquidistantLinear(q, p1, p3);
  }

  /** Two solutions of the same pair of linear equations with a non-zero determinant agree. */
  lemma UniqueFromEquations(qx: real, qy: real, ux: real, uy: real, a1: real, b1: real, a2: real, b2: real, c1: real, c2: real)
    requires Cross(a1, b1, a2, b2) != 0.0
    requires Solves(qx, qy, a1, b1, c1) && Solves(qx, qy, a2, b2, c2)
    requires Solves(ux, uy, a1, b1, c1) && Solves(ux, uy, a2, b2, c2)
    ensures qx == ux && qy == uy
  {
    LinearDifference(qx, qy, ux, uy, a1, b1, c1);
    LinearDifference(qx, qy, ux, uy, a2, b2, c2);
    UniqueSolution(qx - ux, qy - uy, a1, b1, a2, b2);
  }

  /** Two solutions of the same linear equation differ by a solution of the homogeneous one. */
  lemma LinearDifference(qx: real, qy: real, ux: real, uy: real, a: real, b: real, c: real)
    requires Solves(qx, qy, a, b, c) && Solves(ux, uy, a, b, c)
    ensures Orthogonal(qx - ux, qy - uy, a, b)
  {
  }

  /** With a non-zero determinant at most one point is equally far from the three vertices. */
  lemma EquidistantUnique(p1: Point, p2: Point, p3: Point, q: Point, u: Point)
    requires Det(p1, p2, p3) != 0.0
    requires SqDist(q, p1) == SqDist(q, p2) && SqDist(q, p1) == SqDist(q, p3)
    requires SqDist(u, p1) == SqDist(u, p2) && SqDist(u, p1) == SqDist(u, p3)
    ensures q == u
  {
    EquidistantEquations(q, p1, p2, p3);
    EquidistantEquations(u, p1, p2, p3);
    SameSolution(p1, p2, p3, q, u);
  }

  /** Two solutions of the equations of equal distance, with a non-zero determinant, agree. */
  lemma SameSolution(p1: Point, p2: Point, p3: Point, q: Point, u: Point)
    requires Det(p1, p2, p3) != 0.0
    requires Solves(q.lat, q.lon, p1.lat - p2.lat, p1.lon - p2.lon, Norm2(p1) - Norm2(p2))
    requires Solves(q.lat, q.lon, p1.lat - p3.lat, p1.lon - p3.lon, Norm2(p1) - Norm2(p3))
    requires Solves(u.lat, u.lon, p1.lat - p2.lat, p1.lon - p2.lon, Norm2(p1) - Norm2(p2))
    requires Solves(u.lat, u.lon, p1.lat - p3.lat, p1.lon - p3.lon, Norm2(p1) - Norm2(p3))
    ensures q == u
  {
    DetAsCross(p1, p2, p3);
    UniqueFromEquations(q.lat, q.lon, u.lat, u.lon, p1.lat - p2.lat, p1.lon - p2.lon, p1.lat - p3.lat, p1.lon - p3.lon,
      Norm2(p1) - Norm2(p2), Norm2(p1) - Norm2(p3));
  }

  /** The determinant is the cross product of the two edges leaving `p1`. */
  lemma DetAsCross(p1: Point, p2: Point, p3: Point)
    ensures Cross(p1.lat - p2.lat, p1.lon - p2.lon, p1.lat - p3.lat, p1.lon - p3.lon) == Det(p1, p2, p3)
  {
  }

  /** The circumcenter is the only point equally far from the three vertices. */
  lemma CircumcenterUnique(p1: Point, p2: Point, p3: Point, q: Point)
    requires Circumcenter(p1, p2, p3).Ok?
    requires SqDist(q, p1) == SqDist(q, p2) && SqDist(q, p1) == SqDist(q, p3)
    ensures q == Circumcenter(p1, p2, p3).value
  {
    CircumcenterQuotients(p1, p2, p3);
    CircumcenterEquidistant(p1, p2, p3);
    EquidistantUnique(p1, p2, p3, q, Circumcenter(p1, p2, p3).value);
  }

  /** The package's tests: the right triangle (0,0), (0,2), (2,0) has its circumcenter at
      (1,1), the midpoint of the hypotenuse. */
  lemma CircumcenterRightTriangle(p1: Point, p2: Point, p3: Point)
    requires p1 == Point(0.0, 0.0) && p2 == Point(0.0, 2.0) && p3 == Point(2.0, 0.0)
    ensures Circumcenter(p1, p2, p3) == Ok(Point(1.0, 1.0))
  {
    assert Det(p1, p2, p3) == -4.0;
    assert Area(p1, p2, p3) == 2.0;
    assert NumeratorX(0.0, 0.0, 0.0, 2.0, 2.0, 0.0) == -8.0;
    assert NumeratorY(0.0, 0.0, 0.0, 2.0, 2.0, 0.0) == -8.0;
  }

  /** (0,0), (1,1), (2,2) are collinear. */
  lemma CircumcenterCollinear(p1: Point, p2: Point, p3: Point)
    requires p1 == Point(0.0, 0.0) && p2 == Point(1.0, 1.0) && p3 == Point(2.0, 2.0)
    ensures Circumcenter(p1, p2, p3) == Err(Collinear)
  {
    assert Det(p1, p2, p3) == 0.0;
  }

  // ---------------------------------------------------------------------------------------
  // centroid, midpoint, bounding box
  // ---------------------------------------------------------------------------------------

  function Lats(points: seq<Point>): seq<real>
  {
    seq(|points|, i requires 0 <= i < |points| => points[i].lat)
  }

  function Lons(points: seq<Point>): seq<real>
  {
    seq(|points|, i requires 0 <= i < |points| => points[i].lon)
  }

  /** Python's `sum`: a left fold from zero. */
  function Sum(xs: seq<real>): real
  {
    if |xs| == 0 then 0.0 else Sum(xs[..|xs| - 1]) + xs[|xs| - 1]
  }

  /** `centroid(points)`: `ValueError` on an empty list, otherwise the mean of the latitudes
      and the mean of the longitudes. */
  function Centroid(points: seq<Point>): (r: Result<Point, GeometryError>)
    ensures r.Err? <==> |points| == 0
    ensures r.Err? ==> r.error == EmptyPoints
  {
    if |points| == 0 then Err(EmptyPoints)
    else Ok(Point(Sum(Lats(points)) / |points| as real, Sum(Lons(points)) / |points| as real))
  }

  /** `midpoint(point1, point2)`: the coordinate-wise average, as far from the first point
      as from the second in each coordinate. */
  function Midpoint(p: Point, q: Point): (r: Point)
    ensures r.lat - p.lat == q.lat - r.lat
    ensures r.lon - p.lon == q.lon - r.lon
  {
    Point((p.lat + q.lat) / 2.0, (p.lon + q.lon) / 2.0)
  }

  /** Python's `min` over a non-empty sequence: keeps the running minimum, replacing it only
      by a strictly smaller element. It is a lower bound that is attained. */
  function MinOf(xs: seq<real>): (m: real)
    requires |xs| > 0
    ensures forall i :: 0 <= i < |xs| ==> m <= xs[i]
    ensures exists i :: 0 <= i < |xs| && xs[i] == m
  {
    if |xs| == 1 then xs[0]
    else
      var m := MinOf(xs[..|xs| - 1]);
      assert forall i :: 0 <= i < |xs| - 1 ==> xs[..|xs| - 1][i] == xs[i];
      if xs[|xs| - 1] < m then xs[|xs| - 1] else m
  }

  /** Python's `max`: the running maximum, replaced only by a strictly larger element. */
  function MaxOf(xs: seq<real>): (m: real)
    requires |xs| > 0
    ensures forall i :: 0 <= i < |xs| ==> xs[i] <= m
    ensures exists i :: 0 <= i < |xs| && xs[i] == m
  {
    if |xs| == 1 then xs[0]
    else
      var m := MaxOf(xs[..|xs| - 1]);
      assert forall i :: 0 <= i < |xs| - 1 ==> xs[..|xs| - 1][i] == xs[i];
      if xs[|xs| - 1] > m then xs[|xs| - 1] else m
  }

  /** `bounding_box(points)`: `ValueError` on an empty list, otherwise
      `((min_lat, min_lon), (max_lat, max_lon))`: every point lies in the box and every side of
      the box touches a point. */
  function BoundingBox(points: seq<Point>): (r: Result<(Point, Point), GeometryError>)
    ensures r.Err? <==> |points| == 0
    ensures r.Err? ==> r.error == EmptyPoints
    ensures r.Ok? ==> forall i :: 0 <= i < |points| ==>
      r.value.0.lat <= points[i].lat <= r.value.1.lat && r.value.0.lon <= points[i].lon <= r.value.1.lon
    ensures r.Ok? ==> exists i :: 0 <= i < |points| && points[i].lat == r.value.0.lat
    ensures r.Ok? ==> exists i :: 0 <= i < |points| && points[i].lat == r.value.1.lat
    ensures r.Ok? ==> exists i :: 0 <= i < |points| && points[i].lon == r.value.0.lon
    ensures r.Ok? ==> exists i :: 0 <= i < |points| && points[i].lon == r.value.1.lon
  {
    if |points| == 0 then Err(EmptyPoints)
    else
      var lats, lons := Lats(points), Lons(points);
      assert forall i :: 0 <= i < |points| ==> lats[i] == points[i].lat && lons[i] == points[i].lon;
      Ok((Point(MinOf(lats), MinOf(lons)), Point(MaxOf(lats), MaxOf(lons))))
  }

  /** A sum of `n` terms between `lo` and `hi` lies between `n * lo` and `n * hi`. */
  lemma {:induction false} SumBounds(xs: seq<real>, lo: real, hi: real)
    requires forall i :: 0 <= i < |xs| ==> lo <= xs[i] <= hi
    ensures |xs| as real * lo <= Sum(xs) <= |xs| as real * hi
  {
    if |xs| > 0 {
      var init := xs[..|xs| - 1];
      assert forall i :: 0 <= i < |init| ==> init[i] == xs[i];
      SumBounds(init, lo, hi);
      assert |xs| as real * lo == |init| as real * lo + lo;
      assert |xs| as real * hi == |init| as real * hi + hi;
    }
  }

  lemma MeanBounds(s: real, n: real, lo: real, hi: real)
    requires n > 0.0 && n * lo <= s <= n * hi
    ensures lo <= s / n <= hi
  {
    assert s / n * n == s;
  }

  /** The mean of a non-empty sequence lies between its minimum and its maximum. */
  lemma MeanInRange(xs: seq<real>)
    requires |xs| > 0
    ensures MinOf(xs) <= Sum(xs) / |xs| as real <= MaxOf(xs)
  {
    MeanBetween(xs, MinOf(xs), MaxOf(xs));
  }

  lemma MeanBetween(xs: seq<real>, lo: real, hi: real)
    requires |xs| > 0 && forall i :: 0 <= i < |xs| ==> lo <= xs[i] <= hi
    ensures lo <= Sum(xs) / |xs| as real <= hi
  {
    SumBounds(xs, lo, hi);
    MeanBounds(Sum(xs), |xs| as real, lo, hi);
  }

  /** The centroid lies in the bounding box of the same points. */
  lemma CentroidInBoundingBox(points: seq<Point>)
    requires |points| > 0
    ensures var c, box := Centroid(points).value, BoundingBox(points).value;
      box.0.lat <= c.lat <= box.1.lat && box.0.lon <= c.lon <= box.1.lon
  {
    MeanInRange(Lats(points));
    MeanInRange(Lons(points));
  }

  /** The sum of one value is that value. */
  lemma SumSingle(x: real)
    ensures Sum([x]) == x
  {
    assert [x][..0] == [];
  }

  /** The sum of two values is their sum. */
  lemma SumPair(x: real, y: real)
    ensures Sum([x, y]) == x + y
  {
    assert [x, y][..1] == [x];
    SumSingle(x);
  }

  /** The centroid of a single point is the point. */
  lemma CentroidSingle(p: Point)
    ensures Centroid([p]) == Ok(p)
  {
    assert Lats([p]) == [p.lat] && Lons([p]) == [p.lon];
    SumSingle(p.lat);
    SumSingle(p.lon);
  }

  /** The midpoint is the centroid of the two points. */
  lemma MidpointIsCentroid(p: Point, q: Point)
    ensures Centroid([p, q]) == Ok(Midpoint(p, q))
  {
    assert Lats([p, q]) == [p.lat, q.lat] && Lons([p, q]) == [p.lon, q.lon];
    SumPair(p.lat, q.lat);
    SumPair(p.lon, q.lon);
  }

  /** The midpoint is equally far from both ends, at half their distance. */
  lemma MidpointEquidistant(p: Point, q: Point)
    ensures SqDist(Midpoint(p, q), p) == SqDist(Midpoint(p, q), q)
    ensures 4.0 * SqDist(Midpoint(p, q), p) == SqDist(p, q)
  {
  }

  /** The package's test: the midpoint of (40, -75) and (42, -70) is (41, -72.5). */
  lemma MidpointExample()
    ensures Midpoint(Point(40.0, -75.0), Point(42.0, -70.0)) == Point(41.0, -72.5)
  {
  }

  /** The package's tests on (40, -75), (42, -70), (39, -72): the centroid is
      (121/3, -217/3) and the bounding box is ((39, -75), (42, -70)); the empty list raises. */
  lemma CentroidExample(points: seq<Point>)
    requires points == [Point(40.0, -75.0), Point(42.0, -70.0), Point(39.0, -72.0)]
    ensures Centroid(points) == Ok(Point(121.0 / 3.0, -217.0 / 3.0))
    ensures Centroid([]).Err? && BoundingBox([]).Err?
  {
    assert Lats(points) == [40.0, 42.0, 39.0];
    assert Lons(points) == [-75.0, -70.0, -72.0];
    assert [40.0, 42.0, 39.0][..2] == [40.0, 42.0] && [40.0, 42.0][..1] == [40.0] && [40.0][..0] == [];
    assert [-75.0, -70.0, -72.0][..2] == [-75.0, -70.0] && [-75.0, -70.0][..1] == [-75.0] && [-75.0][..0] == [];
  }

  lemma BoundingBoxExample(points: seq<Point>)
    requires points == [Point(40.0, -75.0), Point(42.0, -70.0), Point(39.0, -72.0)]
    ensures BoundingBox(points) == Ok((Point(39.0, -75.0), Point(42.0, -70.0)))
  {
    assert Lats(points) == [40.0, 42.0, 39.0];
    assert Lons(points) == [-75.0, -70.0, -72.0];
    ExtremaOfThree(40.0, 42.0, 39.0);
    ExtremaOfThree(-75.0, -70.0, -72.0);
  }

  /** `min` and `max` of three values. */
  lemma ExtremaOfThree(a: real, b: real, c: real)
    ensures MinOf([a, b, c]) == Min(Min(a, b), c) && MaxOf([a, b, c]) == Max(Max(a, b), c)
  {
    assert [a, b, c][..2] == [a, b] && [a, b][..1] == [a];
  }

  // ---------------------------------------------------------------------------------------
  // point in polygon
  // ---------------------------------------------------------------------------------------

  /** The vertex before vertex `i` in the closed ring of `n` vertices: `j` in the loop. */
  function Prev(i: nat, n: nat): nat
    requires 0 < n && i <= n
  {
    if i == 0 then n - 1 else i - 1
  }

  /** The loop's `intersect`: the ray from `p` towards growing latitude crosses the edge from
      vertex `a` (the `i`-th) to vertex `b` (the `j`-th). The edge straddles `p`'s longitude,
      an end counting as below when its longitude is not greater, and `p` lies before the
      crossing point. */
  predicate Crosses(p: Point, a: Point, b: Point)
  {
    (a.lon > p.lon) != (b.lon > p.lon)
    && p.lat < (b.lat - a.lat) * (p.lon - a.lon) / (b.lon - a.lon) + a.lat
  }

  /** The number of edges `(i, Prev(i))`, for `i < k`, that the ray crosses. */
  function Crossings(p: Point, polygon: seq<Point>, k: nat): nat
    requires 0 < |polygon| && k <= |polygon|
  {
    if k == 0 then 0
    else Crossings(p, polygon, k - 1) + (if Crosses(p, polygon[k - 1], polygon[Prev(k - 1, |polygon|)]) then 1 else 0)
  }

  /** `is_point_inside_polygon(point, polygon)`: `False` for fewer than three vertices,
      otherwise the ray-casting parity over every edge of the closed ring. */
  method IsPointInsidePolygon(point: Point, polygon: seq<Point>) returns (inside: bool)
    ensures inside <==> |polygon| >= 3 && Crossings(point, polygon, |polygon|) % 2 == 1
  {
    if |polygon| < 3 {
      return false;
    }
    inside := false;
    var j := |polygon| - 1;
    for i := 0 to |polygon|
      invariant j == Prev(i, |polygon|)
      invariant inside <==> Crossings(point, polygon, i) % 2 == 1
    {
      var intersect := Crosses(point, polygon[i], polygon[j]);
      if intersect {
        inside := !inside;
      }
      j := i;
    }
  }

  /** A quotient of a part by a positive whole is between 0 and 1. */
  lemma FractionBounds(a: real, d: real)
    requires 0.0 <= a <= d && d > 0.0
    ensures 0.0 <= a / d <= 1.0
  {
    assert a / d * d == a;
  }

  /** The fraction of the way from `yi` to `yj` at which `y` lies is between 0 and 1 when
      `y` is straddled. */
  lemma StraddleFraction(y: real, yi: real, yj: real)
    requires (yi > y) != (yj > y)
    ensures 0.0 <= (y - yi) / (yj - yi) <= 1.0
  {
    if yj > yi {
      FractionBounds(y - yi, yj - yi);
    } else {
      assert (y - yi) / (yj - yi) == (yi - y) / (yi - yj);
      FractionBounds(yi - y, yi - yj);
    }
  }

  /** Dividing a product by `d` divides one factor. */
  lemma ProductQuotient(a: real, b: real, d: real)
    requires d != 0.0
    ensures a * b / d == a * (b / d)
  {
  }

  /** A value at most a fraction in [0, 1] of the way from `xi` to `xj` is below the larger
      of the two. */
  lemma BelowInterpolation(x: real, xi: real, xj: real, t: real)
    requires 0.0 <= t <= 1.0
    requires x < (xj - xi) * t + xi
    ensures x < xi || x < xj
  {
    if xi <= xj {
      NonnegativeProduct(1.0 - t, xj - xi);
      assert (1.0 - t) * (xj - xi) == (xj - xi) - (xj - xi) * t;
    } else {
      NonnegativeProduct(t, xi - xj);
      assert t * (xi - xj) == -((xj - xi) * t);
    }
  }

  lemma NonnegativeProduct(a: real, b: real)
    requires a >= 0.0 && b >= 0.0
    ensures a * b >= 0.0
  {
  }

  /** The crossing point of a straddled edge lies between the edge's two latitudes, so a
      crossing needs a vertex at a greater latitude than the point. */
  lemma CrossingNeedsGreaterLatitude(x: real, y: real, xi: real, yi: real, xj: real, yj: real)
    requires (yi > y) != (yj > y)
    requires x < (xj - xi) * (y - yi) / (yj - yi) + xi
    ensures x < xi || x < xj
  {
    StraddleFraction(y, yi, yj);
    ProductQuotient(xj - xi, y - yi, yj - yi);
    BelowInterpolation(x, xi, xj, (y - yi) / (yj - yi));
  }

  /** An edge the ray crosses has one end above the point's longitude and one end at or
      below it, and one end at a greater latitude than the point. */
  lemma CrossedEdge(p: Point, a: Point, b: Point)
    requires Crosses(p, a, b)
    ensures a.lon > p.lon || b.lon > p.lon
    ensures a.lon <= p.lon || b.lon <= p.lon
    ensures p.lat < a.lat || p.lat < b.lat
  {
    CrossingNeedsGreaterLatitude(p.lat, p.lon, a.lat, a.lon, b.lat, b.lon);
  }

  /** Some crossed edge exists once the count is positive. */
  lemma {:induction false} SomeCrossing(p: Point, polygon: seq<Point>, k: nat)
    requires 0 < |polygon| && k <= |polygon|
    requires Crossings(p, polygon, k) > 0
    ensures exists i :: 0 <= i < k && Crosses(p, polygon[i], polygon[Prev(i, |polygon|)])
  {
    if !Crosses(p, polygon[k - 1], polygon[Prev(k - 1, |polygon|)]) {
      SomeCrossing(p, polygon, k - 1);
    }
  }

  /** A point the ray-casting test finds inside lies strictly before the polygon's greatest
      latitude and within its range of longitudes (above the least one, at most the greatest). */
  lemma InsideWithinBoundingBox(p: Point, polygon: seq<Point>)
    requires |polygon| >= 3 && Crossings(p, polygon, |polygon|) % 2 == 1
    ensures var box := BoundingBox(polygon).value;
      p.lat < box.1.lat && box.0.lon <= p.lon < box.1.lon
  {
    SomeCrossing(p, polygon, |polygon|);
    var i :| 0 <= i < |polygon| && Crosses(p, polygon[i], polygon[Prev(i, |polygon|)]);
    CrossedEdge(p, polygon[i], polygon[Prev(i, |polygon|)]);
  }

  /** The package's test square (0,0), (0,10), (10,10), (10,0): the ray from (5,5) crosses
      one edge (from (10,0) to (10,10)), the ray from (15,5) none. */
  lemma SquareExample(square: seq<Point>)
    requires square == [Point(0.0, 0.0), Point(0.0, 10.0), Point(10.0, 10.0), Point(10.0, 0.0)]
    ensures Crossings(Point(5.0, 5.0), square, 4) == 1
    ensures Crossings(Point(15.0, 5.0), square, 4) == 0
  {
    var (inner, outer) := (Point(5.0, 5.0), Point(15.0, 5.0));
    assert !Crosses(inner, square[0], square[3]) && !Crosses(outer, square[0], square[3]);
    assert !Crosses(inner, square[1], square[0]) && !Crosses(outer, square[1], square[0]);
    assert !Crosses(inner, square[2], square[1]) && !Crosses(outer, square[2], square[1]);
    assert Crosses(inner, square[3], square[2]) && !Crosses(outer, square[3], square[2]);
    assert Crossings(inner, square, 1) == 0 && Crossings(outer, square, 1) == 0;
    assert Crossings(inner, square, 2) == 0 && Crossings(outer, square, 2) == 0;
    assert Crossings(inner, square, 3) == 0 && Crossings(outer, square, 3) == 0;
  }

  // ---------------------------------------------------------------------------------------
  // orthocenter
  // ---------------------------------------------------------------------------------------

  /** A slope `dy/dx` with the first coordinate as `x`; `float('inf')` is `Vertical`. */
  datatype Slope = Finite(m: real) | Vertical

  /** The slope of the altitude perpendicular to the side from `a` to `b`: `0` when the side
      has one latitude, `-(xb - xa) / (yb - ya)` when its longitudes differ, and infinite
      otherwise. */
  function AltitudeSlope(a: Point, b: Point): (r: Slope)
    ensures r.Vertical? <==> a.lat != b.lat && a.lon == b.lon
    ensures r.Finite? ==> Perpendicular(r.m, b.lat - a.lat, b.lon - a.lon)
  {
    if a.lat == b.lat then Finite(0.0)
    else if b.lon != a.lon then
      QuotientTimes(-(b.lat - a.lat) / (b.lon - a.lon), -(b.lat - a.lat), b.lon - a.lon);
      Finite(-(b.lat - a.lat) / (b.lon - a.lon))
    else Vertical
  }

  /** The intercept `b = y - m * x` of the line of slope `m` through `p`. */
  function Intercept(p: Point, m: real): real
  {
    p.lon - m * p.lat
  }

  /** `h` lies on the line `y = m * x + b`. */
  predicate OnLine(h: Point, m: real, b: real)
  {
    h.lon == m * h.lat + b
  }

  /** `orthocenter(point1, point2, point3)`: intersects the altitude from `point1` (slope
      `m1`, perpendicular to the side from `point2` to `point3`) with the altitude from
      `point2` (slope `m2`, perpendicular to the side from `point3` to `point1`), each written
      `y = m * x + b`. Two vertical altitudes give an `inf` or `nan` coordinate (`NonFinite`);
      two equal finite non-zero slopes divide by zero. Those are its only failures. */
  function Orthocenter(p1: Point, p2: Point, p3: Point): (r: Result<Point, GeometryError>)
    ensures r == Err(NonFinite) <==> AltitudeSlope(p2, p3).Vertical? && AltitudeSlope(p3, p1).Vertical?
    ensures r == Err(DivisionByZero) <==>
      AltitudeSlope(p2, p3).Finite? && AltitudeSlope(p2, p3) == AltitudeSlope(p3, p1) && AltitudeSlope(p2, p3).m != 0.0
    ensures r.Err? ==> r.error == NonFinite || r.error == DivisionByZero
  {
    var m1 := AltitudeSlope(p2, p3);
    var m2 := AltitudeSlope(p3, p1);
    if m1.Vertical? then
      if m2.Vertical? then Err(NonFinite)
      else Ok(Point(p1.lat, m2.m * p1.lat + Intercept(p2, m2.m)))
    else if m2.Vertical? then Ok(Point(p2.lat, m1.m * p2.lat + Intercept(p1, m1.m)))
    else IntersectAltitudes(p1, p2, m1.m, m2.m)
  }

  /** The last branches of `orthocenter`, with both slopes finite: the lines
      `y = m1 * x + b1` through `point1` and `y = m2 * x + b2` through `point2`. It divides by
      zero exactly when the slopes are equal and not zero; with different slopes the result
      lies on both lines. */
  function IntersectAltitudes(p1: Point, p2: Point, m1: real, m2: real): (r: Result<Point, GeometryError>)
    ensures r.Err? <==> m1 != 0.0 && m1 == m2
    ensures r.Err? ==> r.error == DivisionByZero
    ensures r.Ok? && m1 != m2 ==> OnLine(r.value, m1, Intercept(p1, m1)) && OnLine(r.value, m2, Intercept(p2, m2))
  {
    var b1 := Intercept(p1, m1);
    var b2 := Intercept(p2, m2);
    if m1 == 0.0 then
      if m2 != 0.0 then
        HorizontalFirst(p1, p2, m2);
        Ok(Point((p1.lon - b2) / m2, p1.lon))
      else Ok(Point(p2.lat, p1.lon))
    else if m2 == 0.0 then
      HorizontalSecond(p1, p2, m1);
      Ok(Point((p2.lon - b1) / m1, p2.lon))
    else if m1 == m2 then Err(DivisionByZero)
    else
      var x := (b2 - b1) / (m1 - m2);
      SlopedLines(p1, p2, m1, m2);
      Ok(Point(x, m1 * x + b1))
  }

  /** The branch `m1 == 0`: the horizontal line through `point1` meets the other line at
      `x = (y1 - b2) / m2`. */
  lemma HorizontalFirst(p1: Point, p2: Point, m2: real)
    requires m2 != 0.0
    ensures var h := Point((p1.lon - Intercept(p2, m2)) / m2, p1.lon);
      OnLine(h, 0.0, Intercept(p1, 0.0)) && OnLine(h, m2, Intercept(p2, m2))
  {
    var h := Point((p1.lon - Intercept(p2, m2)) / m2, p1.lon);
    QuotientSolves(h.lat, m2, p1.lon - Intercept(p2, m2));
  }

  /** The branch `m2 == 0`: the horizontal line through `point2` meets the other line at
      `x = (y2 - b1) / m1`. */
  lemma HorizontalSecond(p1: Point, p2: Point, m1: real)
    requires m1 != 0.0
    ensures var h := Point((p2.lon - Intercept(p1, m1)) / m1, p2.lon);
      OnLine(h, m1, Intercept(p1, m1)) && OnLine(h, 0.0, Intercept(p2, 0.0))
  {
    var h := Point((p2.lon - Intercept(p1, m1)) / m1, p2.lon);
    QuotientSolves(h.lat, m1, p2.lon - Intercept(p1, m1));
  }

  /** The last branch: two lines with different non-zero slopes meet at
      `x = (b2 - b1) / (m1 - m2)`. */
  lemma SlopedLines(p1: Point, p2: Point, m1: real, m2: real)
    requires m1 != m2
    ensures var x := (Intercept(p2, m2) - Intercept(p1, m1)) / (m1 - m2);
      var h := Point(x, m1 * x + Intercept(p1, m1));
      OnLine(h, m1, Intercept(p1, m1)) && OnLine(h, m2, Intercept(p2, m2))
  {
    var (b1, b2) := (Intercept(p1, m1), Intercept(p2, m2));
    var x := (b2 - b1) / (m1 - m2);
    QuotientSolves(x, m1 - m2, b2 - b1);
  }

  /** `h` lies on the line through `p` perpendicular to the side from `a` to `b`. */
  predicate OnAltitude(h: Point, p: Point, a: Point, b: Point)
  {
    (h.lat - p.lat) * (b.lat - a.lat) + (h.lon - p.lon) * (b.lon - a.lon) == 0.0
  }

  /** A line of slope `m` is perpendicular to the direction `(dx, dy)`. */
  predicate Perpendicular(m: real, dx: real, dy: real)
  {
    m * dy == -dx
  }

  /** A point of the line of slope `m` through `p`, with `m` perpendicular to the side from
      `a` to `b`, is on the altitude through `p`. */
  lemma LinePerpendicular(h: Point, p: Point, a: Point, b: Point, m: real)
    requires Perpendicular(m, b.lat - a.lat, b.lon - a.lon) && OnLine(h, m, Intercept(p, m))
    ensures OnAltitude(h, p, a, b)
  {
    var (dx, dy) := (b.lat - a.lat, b.lon - a.lon);
    assert h.lon - p.lon == m * (h.lat - p.lat);
    assert (h.lon - p.lon) * dy == (h.lat - p.lat) * (m * dy);
  }

  /** A point of the line `y = m * x + b` through `p`, with `m` the finite altitude slope of
      the side from `a` to `b`, is on the altitude through `p`. */
  lemma OnFiniteAltitude(h: Point, p: Point, a: Point, b: Point, m: real)
    requires AltitudeSlope(a, b) == Finite(m) && OnLine(h, m, Intercept(p, m))
    ensures OnAltitude(h, p, a, b)
  {
    LinePerpendicular(h, p, a, b, m);
  }

  /** A vertical altitude slope belongs to a side along one longitude, and the points with
      `p`'s latitude are on the altitude through `p`. */
  lemma OnVerticalAltitude(h: Point, p: Point, a: Point, b: Point)
    requires AltitudeSlope(a, b).Vertical? && h.lat == p.lat
    ensures OnAltitude(h, p, a, b)
  {
  }

  lemma QuotientSolves(x: real, m: real, c: real)
    requires m != 0.0 && x == c / m
    ensures m * x == c
  {
  }

  /** The three altitudes meet: a point on two of them is on the third. */
  lemma ThirdAltitude(h: Point, p1: Point, p2: Point, p3: Point)
    requires OnAltitude(h, p1, p2, p3) && OnAltitude(h, p2, p3, p1)
    ensures OnAltitude(h, p3, p1, p2)
  {
  }

  /** The determinant is the cross product of the side from `p2` to `p3` with the side from
      `p3` to `p1`. */
  lemma DetAsSides(p1: Point, p2: Point, p3: Point)
    ensures Det(p1, p2, p3) == Cross(p3.lat - p2.lat, p3.lon - p2.lon, p1.lat - p3.lat, p1.lon - p3.lon)
  {
  }

  /** In a proper triangle the two finite altitude slopes differ: equal slopes would make the
      two sides parallel. */
  lemma DistinctSlopes(p1: Point, p2: Point, p3: Point, m1: real, m2: real)
    requires Det(p1, p2, p3) != 0.0
    requires AltitudeSlope(p2, p3) == Finite(m1) && AltitudeSlope(p3, p1) == Finite(m2)
    ensures m1 != m2
  {
    DetAsSides(p1, p2, p3);
    SlopesCross(p3.lat - p2.lat, p3.lon - p2.lon, p1.lat - p3.lat, p1.lon - p3.lon, m1, m2);
  }

  lemma SlopesCross(dx1: real, dy1: real, dx2: real, dy2: real, m1: real, m2: real)
    requires Perpendicular(m1, dx1, dy1) && Perpendicular(m2, dx2, dy2)
    ensures Cross(dx1, dy1, dx2, dy2) == (m2 - m1) * (dy1 * dy2)
  {
    assert dx1 * dy2 == -(m1 * dy1) * dy2;
    assert dx2 * dy1 == -(m2 * dy2) * dy1;
  }

  /** In a proper triangle at most one of the two altitude slopes is vertical: two vertical
      ones would put the three vertices on one longitude. */
  lemma NotBothVertical(p1: Point, p2: Point, p3: Point)
    requires Det(p1, p2, p3) != 0.0
    ensures !(AltitudeSlope(p2, p3).Vertical? && AltitudeSlope(p3, p1).Vertical?)
  {
  }

  /** For a proper triangle (non-zero determinant) the orthocenter exists and lies on the
      three altitudes. */
  lemma OrthocenterOnAltitudes(p1: Point, p2: Point, p3: Point)
    requires Det(p1, p2, p3) != 0.0
    ensures Orthocenter(p1, p2, p3).Ok?
    ensures var h := Orthocenter(p1, p2, p3).value;
      OnAltitude(h, p1, p2, p3) && OnAltitude(h, p2, p3, p1) && OnAltitude(h, p3, p1, p2)
  {
    NotBothVertical(p1, p2, p3);
    if AltitudeSlope(p2, p3).Vertical? {
      VerticalOrthocenter(p1, p2, p3, AltitudeSlope(p3, p1).m);
    } else if AltitudeSlope(p3, p1).Vertical? {
      VerticalOrthocenter2(p1, p2, p3, AltitudeSlope(p2, p3).m);
    } else {
      var (m1, m2) := (AltitudeSlope(p2, p3).m, AltitudeSlope(p3, p1).m);
      DistinctSlopes(p1, p2, p3, m1, m2);
      FiniteOrthocenter(p1, p2, p3, m1, m2);
    }
  }

  /** The branch of a vertical altitude through `point1`. */
  lemma VerticalOrthocenter(p1: Point, p2: Point, p3: Point, m2: real)
    requires AltitudeSlope(p2, p3).Vertical? && AltitudeSlope(p3, p1) == Finite(m2)
    ensures Orthocenter(p1, p2, p3) == Ok(Point(p1.lat, m2 * p1.lat + Intercept(p2, m2)))
    ensures var h := Orthocenter(p1, p2, p3).value;
      OnAltitude(h, p1, p2, p3) && OnAltitude(h, p2, p3, p1) && OnAltitude(h, p3, p1, p2)
  {
    var h := Point(p1.lat, m2 * p1.lat + Intercept(p2, m2));
    assert Orthocenter(p1, p2, p3) == Ok(h);
    OnVerticalAltitude(h, p1, p2, p3);
    OnFiniteAltitude(h, p2, p3, p1, m2);
    ThirdAltitude(h, p1, p2, p3);
  }

  /** The branch of a vertical altitude through `point2`. */
  lemma VerticalOrthocenter2(p1: Point, p2: Point, p3: Point, m1: real)
    requires AltitudeSlope(p2, p3) == Finite(m1) && AltitudeSlope(p3, p1).Vertical?
    ensures Orthocenter(p1, p2, p3) == Ok(Point(p2.lat, m1 * p2.lat + Intercept(p1, m1)))
    ensures var h := Orthocenter(p1, p2, p3).value;
      OnAltitude(h, p1, p2, p3) && OnAltitude(h, p2, p3, p1) && OnAltitude(h, p3, p1, p2)
  {
    var h := Point(p2.lat, m1 * p2.lat + Intercept(p1, m1));
    assert Orthocenter(p1, p2, p3) == Ok(h);
    OnFiniteAltitude(h, p1, p2, p3, m1);
    OnVerticalAltitude(h, p2, p3, p1);
    ThirdAltitude(h, p1, p2, p3);
  }

  /** With two finite slopes `orthocenter` intersects the two lines. */
  lemma OrthocenterFiniteCase(p1: Point, p2: Point, p3: Point, m1: real, m2: real)
    requires AltitudeSlope(p2, p3) == Finite(m1) && AltitudeSlope(p3, p1) == Finite(m2)
    ensures Orthocenter(p1, p2, p3) == IntersectAltitudes(p1, p2, m1, m2)
  {
  }

  /** The branches of two finite, different altitude slopes. */
  lemma FiniteOrthocenter(p1: Point, p2: Point, p3: Point, m1: real, m2: real)
    requires AltitudeSlope(p2, p3) == Finite(m1) && AltitudeSlope(p3, p1) == Finite(m2) && m1 != m2
    ensures Orthocenter(p1, p2, p3).Ok?
    ensures var h := Orthocenter(p1, p2, p3).value;
      OnAltitude(h, p1, p2, p3) && OnAltitude(h, p2, p3, p1) && OnAltitude(h, p3, p1, p2)
  {
    OrthocenterFiniteCase(p1, p2, p3, m1, m2);
    var h := IntersectAltitudes(p1, p2, m1, m2).value;
    OnFiniteAltitude(h, p1, p2, p3, m1);
    OnFiniteAltitude(h, p2, p3, p1, m2);
    ThirdAltitude(h, p1, p2, p3);
  }

  /** In a proper triangle the orthocenter is the only point on the altitudes through
      `point1` and `point2`. */
  lemma OrthocenterUnique(p1: Point, p2: Point, p3: Point, q: Point)
    requires Det(p1, p2, p3) != 0.0
    requires OnAltitude(q, p1, p2, p3) && OnAltitude(q, p2, p3, p1)
    ensures Orthocenter(p1, p2, p3) == Ok(q)
  {
    OrthocenterOnAltitudes(p1, p2, p3);
    AltitudesMeetOnce(p1, p2, p3, q, Orthocenter(p1, p2, p3).value);
  }

  /** In a proper triangle the altitudes through `point1` and `point2` meet in one point. */
  lemma AltitudesMeetOnce(p1: Point, p2: Point, p3: Point, q: Point, h: Point)
    requires Det(p1, p2, p3) != 0.0
    requires OnAltitude(q, p1, p2, p3) && OnAltitude(q, p2, p3, p1)
    requires OnAltitude(h, p1, p2, p3) && OnAltitude(h, p2, p3, p1)
    ensures q == h
  {
    DetAsSides(p1, p2, p3);
    PerpendicularDifference(q, h, p1, p2, p3);
    PerpendicularDifference(q, h, p2, p3, p1);
    UniqueSolution(q.lat - h.lat, q.lon - h.lon, p3.lat - p2.lat, p3.lon - p2.lon, p1.lat - p3.lat, p1.lon - p3.lon);
  }

  /** Two points on the altitude through `p` perpendicular to the side from `a` to `b`
      differ by a vector perpendicular to that side. */
  lemma PerpendicularDifference(q: Point, h: Point, p: Point, a: Point, b: Point)
    requires OnAltitude(q, p, a, b) && OnAltitude(h, p, a, b)
    ensures Orthogonal(q.lat - h.lat, q.lon - h.lon, b.lat - a.lat, b.lon - a.lon)
  {
  }

  /** The right triangle (0,0), (4,0), (0,3) has its orthocenter at the right angle. */
  lemma OrthocenterRightTriangle(p1: Point, p2: Point, p3: Point)
    requires p1 == Point(0.0, 0.0) && p2 == Point(4.0, 0.0) && p3 == Point(0.0, 3.0)
    ensures Orthocenter(p1, p2, p3) == Ok(p1)
  {
    assert AltitudeSlope(p2, p3) == Finite(4.0 / 3.0);
    assert AltitudeSlope(p3, p1) == Finite(0.0);
  }

  /** Three points on one longitude make both altitudes vertical. */
  lemma OrthocenterOneLongitude(p1: Point, p2: Point, p3: Point)
    requires p1 == Point(0.0, 0.0) && p2 == Point(1.0, 0.0) && p3 == Point(2.0, 0.0)
    ensures Orthocenter(p1, p2, p3) == Err(NonFinite)
  {
  }
}
