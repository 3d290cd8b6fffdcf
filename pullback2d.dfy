/**
 * The pull-back of the reference shape functions to a physical triangle
 * (Functions/LagrangeShapeFunctions2D.h): a point P of the triangle A1 A2 A3
 * is sent to t = B^-1 (P - A1) with B = [A2 - A1 | A3 - A1], the value is the
 * reference function at t, and first derivatives follow from the chain rule.
 */
module PullBack2D {
  import opened Boundary
  import opened Quadrature
  import opened Shape2D

  /** The slack the source allows when checking that a point lies in the reference triangle (TOLERANCE in Precompilied.h). */
  const Tolerance: real := 0.00000000000001

  /** A 2 x 2 matrix, row by row. */
  datatype Mat2 = Mat2(a00: real, a01: real, a10: real, a11: real)

  function Det(m: Mat2): real
  {
    m.a00 * m.a11 - m.a01 * m.a10
  }

  /** The matrix B = [A2 - A1 | A3 - A1] of the map from the reference triangle onto A1 A2 A3. */
  function Transformation(A1: Point, A2: Point, A3: Point): Mat2
  {
    Mat2(A2.x - A1.x, A3.x - A1.x, A2.y - A1.y, A3.y - A1.y)
  }

  /** The determinant the source checks is the Jacobian of the element map. */
  lemma TransformationDet(A1: Point, A2: Point, A3: Point)
    ensures Det(Transformation(A1, A2, A3)) == Jacobian(A1, A2, A3)
  {
  }

  /** The inverse the source forms by swapping the diagonal, negating the off-diagonal and dividing by the determinant. */
  function Inverse(m: Mat2): Mat2
    requires Det(m) != 0.0
  {
    var d := Det(m);
    Mat2(m.a11 / d, -m.a01 / d, -m.a10 / d, m.a00 / d)
  }

  /** B^-1 for the triangle A1 A2 A3; the source asserts that B is not singular. */
  function InverseTransformation(A1: Point, A2: Point, A3: Point): Mat2
    requires Jacobian(A1, A2, A3) != 0.0
  {
    TransformationDet(A1, A2, A3);
    Inverse(Transformation(A1, A2, A3))
  }

  /** The matrix m applied to the vector v. */
  function Apply(m: Mat2, v: Point): Point
  {
    Point(m.a00 * v.x + m.a01 * v.y, m.a10 * v.x + m.a11 * v.y)
  }

  /** t = B^-1 (P - A1): the reference point the triangle's affine map sends to P. */
  function ToReference(A1: Point, A2: Point, A3: Point, P: Point): Point
    requires Jacobian(A1, A2, A3) != 0.0
  {
    Apply(InverseTransformation(A1, A2, A3), Point(P.x - A1.x, P.y - A1.y))
  }

  /** The source's check that t lies in the reference triangle, up to Tolerance. */
  predicate NearReferenceTriangle(t: Point)
  {
    t.x > -1.0 * Tolerance && t.y > -1.0 * Tolerance && t.y < 1.0 - t.x + Tolerance
  }

  /**
   * The last step of `lagrangeShapeFunction2D`, once t = B^-1 (P - A1) is
   * known: the value is the reference function at t; a first derivative
   * combines the reference gradient with a column of B^-1 (the chain rule).
   * Other derivative orders are reported as unsupported.
   */
  function PullBack(t: Point, Binv: Mat2, p: int, j: int, dx: nat, dy: nat): (r: Result<real>)
    requires ShapeIndexFits(p, j)
    ensures r.Ok? <==> (p == 1 || p == 2) && dx + dy <= 1
    ensures r.Err? ==> r.failure == if dx + dy <= 1 then UnsupportedPolynomialOrder(p) else UnsupportedDerivative(dx, dy)
  {
    if dx == 0 && dy == 0 then
      RefLagrange2D(t.x, t.y, p, j, 0, 0)
    else if dx == 1 && dy == 0 then
      var rx, ry := RefLagrange2D(t.x, t.y, p, j, 1, 0), RefLagrange2D(t.x, t.y, p, j, 0, 1);
      if rx.Err? then rx else Ok(Binv.a00 * rx.value + Binv.a10 * ry.value)
    else if dx == 0 && dy == 1 then
      var rx, ry := RefLagrange2D(t.x, t.y, p, j, 1, 0), RefLagrange2D(t.x, t.y, p, j, 0, 1);
      if rx.Err? then rx else Ok(Binv.a01 * rx.value + Binv.a11 * ry.value)
    else
      Err(UnsupportedDerivative(dx, dy))
  }

  /**
   * `lagrangeShapeFunction2D`: shape function j of degree p on the triangle
   * A1 A2 A3, or one of its first partial derivatives, at (x, y): the
   * reference function pulled back through t = B^-1 (P - A1). The source
   * asserts that B is invertible and that t lies in the reference triangle.
   */
  function ShapeFunction2D(x: real, y: real, A1: Point, A2: Point, A3: Point, p: int, j: int, dx: nat, dy: nat): (r: Result<real>)
    requires Jacobian(A1, A2, A3) != 0.0 && ShapeIndexFits(p, j)
    requires NearReferenceTriangle(ToReference(A1, A2, A3, Point(x, y)))
    ensures r.Ok? <==> (p == 1 || p == 2) && dx + dy <= 1
    ensures r.Err? ==> r.failure == if dx + dy <= 1 then UnsupportedPolynomialOrder(p) else UnsupportedDerivative(dx, dy)
  {
    PullBack(ToReference(A1, A2, A3, Point(x, y)), InverseTransformation(A1, A2, A3), p, j, dx, dy)
  }

  /** The pulled-back functions of a supported degree, or their first derivatives, added up. */
  function PullBackSum(t: Point, Binv: Mat2, p: int, dx: nat, dy: nat): real
    requires (p == 1 || p == 2) && dx + dy <= 1
  {
    var lower := PullBack(t, Binv, p, 0, dx, dy).value + PullBack(t, Binv, p, 1, dx, dy).value + PullBack(t, Binv, p, 2, dx, dy).value;
    if p == 1 then lower
    else lower + PullBack(t, Binv, p, 3, dx, dy).value + PullBack(t, Binv, p, 4, dx, dy).value + PullBack(t, Binv, p, 5, dx, dy).value
  }

  /** The shape functions of a supported degree at (x, y), or their first derivatives, added up. */
  function ShapeSum2D(x: real, y: real, A1: Point, A2: Point, A3: Point, p: int, dx: nat, dy: nat): real
    requires Jacobian(A1, A2, A3) != 0.0 && (p == 1 || p == 2) && dx + dy <= 1
    requires NearReferenceTriangle(ToReference(A1, A2, A3, Point(x, y)))
  {
    var S := (j: int) requires 0 <= j < ShapeCount(p) => ShapeFunction2D(x, y, A1, A2, A3, p, j, dx, dy).value;
    if p == 1 then S(0) + S(1) + S(2) else S(0) + S(1) + S(2) + S(3) + S(4) + S(5)
  }
}
