/**
 * Lagrange shape functions on triangles (Functions/LagrangeShapeFunctions2D.cpp): the degree-1 and degree-2
 * polynomials on the reference triangle (0, 0), (1, 0), (0, 1) with their
 * partial derivatives.
 */
module Shape2D {
  import opened Boundary
  import opened Quadrature

  // ---------------------------------------------------------------------
  // Degree 1
  // ---------------------------------------------------------------------

  /**
   * `refDegree1LagrangePolynomial2D`: the barycentric coordinates 1 - tx - ty,
   * tx, ty and their first partial derivatives; every derivative of total
   * order two or more is zero.
   */
  function Degree1(tx: real, ty: real, j: int, dx: nat, dy: nat): (r: real)
    requires 0 <= j < 3
    ensures dx + dy >= 2 ==> r == 0.0
  {
    if dx == 0 && dy == 0 then
      (if j == 0 then 1.0 - tx - ty else if j == 1 then tx else ty)
    else if dx == 1 && dy == 0 then
      (if j == 0 then -1.0 else if j == 1 then 1.0 else 0.0)
    else if dx == 0 && dy == 1 then
      (if j == 0 then -1.0 else if j == 1 then 0.0 else 1.0)
    else 0.0
  }

  /** The three degree-1 functions, or their derivatives, added up. */
  function Degree1Sum(tx: real, ty: real, dx: nat, dy: nat): real
  {
    Degree1(tx, ty, 0, dx, dy) + Degree1(tx, ty, 1, dx, dy) + Degree1(tx, ty, 2, dx, dy)
  }

  /** Node k of the degree-1 element: the vertices (0, 0), (1, 0), (0, 1). */
  function Degree1Node(k: int): Point
    requires 0 <= k < 3
  {
    if k == 0 then Point(0.0, 0.0) else if k == 1 then Point(1.0, 0.0) else Point(0.0, 1.0)
  }

  /** Node k of the degree-2 element: the vertices, then the midpoints of edges 01, 12 and 20. */
  function Degree2Node(k: int): Point
    requires 0 <= k < 6
  {
    if k < 3 then Degree1Node(k)
    else if k == 3 then Point(0.5, 0.0)
    else if k == 4 then Point(0.5, 0.5)
    else Point(0.0, 0.5)
  }

  // ---------------------------------------------------------------------
  // Degree 2
  // ---------------------------------------------------------------------

  /**
   * `refDegree2LagrangePolynomial2D`: 2 phi_k (phi_k - 1/2) at the vertices
   * and 4 phi_a phi_b at the edge midpoints, with phi the degree-1 functions;
   * derivatives up to total order two, and zero beyond.
   */
  function Degree2(tx: real, ty: real, j: int, dx: nat, dy: nat): (r: real)
    requires 0 <= j < 6
    ensures dx + dy >= 3 ==> r == 0.0
  {
    var phi0, phi1, phi2 := Degree1(tx, ty, 0, 0, 0), Degree1(tx, ty, 1, 0, 0), Degree1(tx, ty, 2, 0, 0);
    var phi0x, phi1x, phi2x := Degree1(tx, ty, 0, 1, 0), Degree1(tx, ty, 1, 1, 0), Degree1(tx, ty, 2, 1, 0);
    var phi0y, phi1y, phi2y := Degree1(tx, ty, 0, 0, 1), Degree1(tx, ty, 1, 0, 1), Degree1(tx, ty, 2, 0, 1);
    if dx == 0 && dy == 0 then
      (if j == 0 then 2.0 * phi0 * (phi0 - 0.5)
       else if j == 1 then 2.0 * phi1 * (phi1 - 0.5)
       else if j == 2 then 2.0 * phi2 * (phi2 - 0.5)
       else if j == 3 then 4.0 * phi0 * phi1
       else if j == 4 then 4.0 * phi2 * phi1
       else 4.0 * phi2 * phi0)
    else if dx == 1 && dy == 0 then
      (if j == 0 then phi0x * (4.0 * phi0 - 1.0)
       else if j == 1 then phi1x * (4.0 * phi1 - 1.0)
       else if j == 2 then phi2x * (4.0 * phi2 - 1.0)
       else if j == 3 then 4.0 * (phi0x * phi1 + phi0 * phi1x)
       else if j == 4 then 4.0 * (phi2x * phi1 + phi2 * phi1x)
       else 4.0 * (phi2x * phi0 + phi2 * phi0x))
    else if dx == 0 && dy == 1 then
      (if j == 0 then phi0y * (4.0 * phi0 - 1.0)
       else if j == 1 then phi1y * (4.0 * phi1 - 1.0)
       else if j == 2 then phi2y * (4.0 * phi2 - 1.0)
       else if j == 3 then 4.0 * (phi0y * phi1 + phi0 * phi1y)
       else if j == 4 then 4.0 * (phi2y * phi1 + phi2 * phi1y)
       else 4.0 * (phi2y * phi0 + phi2 * phi0y))
    else if dx == 1 && dy == 1 then
      (if j == 0 then 4.0 * phi0x * phi0y
       else if j == 1 then 4.0 * phi1x * phi1y
       else if j == 2 then 4.0 * phi2x * phi2y
       else if j == 3 then 4.0 * (phi0x * phi1y + phi0y * phi1x)
       else if j == 4 then 4.0 * (phi1x * phi2y + phi1y * phi2x)
       else 4.0 * (phi0x * phi2y + phi0y * phi2x))
    else if dx == 2 && dy == 0 then
      (if j == 0 then 4.0 * phi0x * phi0x
       else if j == 1 then 4.0 * phi1x * phi1x
       else if j == 2 then 4.0 * phi2x * phi2x
       else if j == 3 then 8.0 * phi0x * phi1x
       else if j == 4 then 8.0 * phi1x * phi2x
       else 8.0 * phi0x * phi2x)
    else if dx == 0 && dy == 2 then
      (if j == 0 then 4.0 * phi0y * phi0y
       else if j == 1 then 4.0 * phi1y * phi1y
       else if j == 2 then 4.0 * phi2y * phi2y
       else if j == 3 then 8.0 * phi0y * phi1y
       else if j == 4 then 8.0 * phi1y * phi2y
       else 8.0 * phi0y * phi2y)
    else 0.0
  }

  /** The six degree-2 functions, or their derivatives, added up. */
  function Degree2Sum(tx: real, ty: real, dx: nat, dy: nat): real
  {
    Degree2(tx, ty, 0, dx, dy) + Degree2(tx, ty, 1, dx, dy) + Degree2(tx, ty, 2, dx, dy)
    + Degree2(tx, ty, 3, dx, dy) + Degree2(tx, ty, 4, dx, dy) + Degree2(tx, ty, 5, dx, dy)
  }

  // ---------------------------------------------------------------------
  // Order dispatch
  // ---------------------------------------------------------------------

  /** The shape indices an element of degree p has: 3 for degree 1, 6 for degree 2. */
  predicate ShapeIndexFits(p: int, j: int)
  {
    0 <= j && (p == 1 ==> j < 3) && (p == 2 ==> j < 6)
  }

  /** `refLagrangePolynomial2D`: degree 1 or 2; any other degree is reported as unsupported. */
  function RefLagrange2D(tx: real, ty: real, p: int, j: int, dx: nat, dy: nat): (r: Result<real>)
    requires ShapeIndexFits(p, j)
    ensures r.Ok? <==> p == 1 || p == 2
    ensures r.Err? ==> r.failure == UnsupportedPolynomialOrder(p)
  {
    if p == 1 then Ok(Degree1(tx, ty, j, dx, dy))
    else if p == 2 then Ok(Degree2(tx, ty, j, dx, dy))
    else Err(UnsupportedPolynomialOrder(p))
  }

  /** The number of shape functions of a supported degree. */
  function ShapeCount(p: int): nat
  {
    if p == 1 then 3 else 6
  }

  /** The reference functions of degree p, or their derivatives, added up. */
  function RefSum(tx: real, ty: real, p: int, dx: nat, dy: nat): real
  {
    if p == 1 then Degree1Sum(tx, ty, dx, dy) else Degree2Sum(tx, ty, dx, dy)
  }

  /** Node k of the reference element of degree p. */
  function RefNode(p: int, k: int): Point
    requires 0 <= k < ShapeCount(p)
  {
    if p == 1 then Degree1Node(k) else Degree2Node(k)
  }

  // ---------------------------------------------------------------------
  // Reference-element properties
  // ---------------------------------------------------------------------

  /** The degree-1 functions add up to one, so their derivatives add up to zero. */
  lemma Degree1PartitionOfUnity(tx: real, ty: real, dx: nat, dy: nat)
    ensures Degree1Sum(tx, ty, dx, dy) == if dx == 0 && dy == 0 then 1.0 else 0.0
  {
  }

  /** Degree-1 function j is one at node j and zero at the other two nodes. */
  lemma Degree1Kronecker(j: int, k: int)
    requires 0 <= j < 3 && 0 <= k < 3
    ensures Degree1(Degree1Node(k).x, Degree1Node(k).y, j, 0, 0) == if j == k then 1.0 else 0.0
  {
  }

  /** The degree-1 derivatives are the exact slopes: each function changes by h phi_x + k phi_y under a step (h, k). */
  lemma Degree1Exact(tx: real, ty: real, h: real, k: real, j: int)
    requires 0 <= j < 3
    ensures Degree1(tx + h, ty + k, j, 0, 0)
         == Degree1(tx, ty, j, 0, 0) + h * Degree1(tx, ty, j, 1, 0) + k * Degree1(tx, ty, j, 0, 1)
  {
  }

  /** The degree-2 functions add up to one, so all their derivatives add up to zero. */
  lemma Degree2PartitionOfUnity(tx: real, ty: real, dx: nat, dy: nat)
    ensures Degree2Sum(tx, ty, dx, dy) == if dx == 0 && dy == 0 then 1.0 else 0.0
  {
  }

  /** Degree-2 function j is one at node j and zero at the other five nodes. */
  lemma Degree2Kronecker(j: int, k: int)
    requires 0 <= j < 6 && 0 <= k < 6
    ensures Degree2(Degree2Node(k).x, Degree2Node(k).y, j, 0, 0) == if j == k then 1.0 else 0.0
  {
  }

  /**
   * The degree-2 derivatives are those of the value formula: the second-order
   * Taylor expansion with them is exact for every step (h, k).
   */
  lemma Degree2Taylor(tx: real, ty: real, h: real, k: real, j: int)
    requires 0 <= j < 6
    ensures Degree2(tx + h, ty + k, j, 0, 0)
         == Degree2(tx, ty, j, 0, 0) + h * Degree2(tx, ty, j, 1, 0) + k * Degree2(tx, ty, j, 0, 1)
            + h * h / 2.0 * Degree2(tx, ty, j, 2, 0) + h * k * Degree2(tx, ty, j, 1, 1) + k * k / 2.0 * Degree2(tx, ty, j, 0, 2)
  {
  }

  /** The degree-2 second derivatives do not depend on the point. */
  lemma Degree2SecondConstant(tx: real, ty: real, j: int, dx: nat, dy: nat)
    requires 0 <= j < 6 && dx + dy == 2
    ensures Degree2(tx, ty, j, dx, dy) == Degree2(0.0, 0.0, j, dx, dy)
  {
  }
}
