/**
 * Gauss quadrature rules (Functions/Gauss-LegendreNodes.cpp): fixed
 * Gauss-Legendre tables on [-1, 1] for 2 to 7 nodes, one 7-point rule on the
 * reference triangle, and their affine images on a mesh element or edge.
 * An order without a table is reported through the error log, which ends the
 * program; here it is an Err result.
 */
module Quadrature {
  import opened Boundary
  import opened Vectors
  import opened Matrices
  import opened Mesh1D
  import opened TriangularMesh

  datatype Point = Point(x: real, y: real)

  // Reference tables on [-1, 1].
  const Nodes2: seq<real> := [-0.5773502691896257645092, 0.5773502691896257645092]
  const Weights2: seq<real> := [1.0, 1.0]
  const Nodes3: seq<real> := [-0.7745966692414833770359, 0.0, 0.7745966692414833770359]
  const Weights3: seq<real> := [0.5555555555555555555556, 0.8888888888888888888889, 0.5555555555555555555556]
  const Nodes4: seq<real> := [-0.861136311594052575224, -0.3399810435848562648027,
                              0.3399810435848562648027, 0.861136311594052575224]
  const Weights4: seq<real> := [0.3478548451374538573731, 0.6521451548625461426269,
                                0.6521451548625461426269, 0.3478548451374538573731]
  const Nodes5: seq<real> := [-0.9061798459386639927976, -0.5384693101056830910363, 0.0,
                              0.5384693101056830910363, 0.9061798459386639927976]
  const Weights5: seq<real> := [0.2369268850561890875143, 0.4786286704993664680413, 0.5688888888888888888889,
                                0.4786286704993664680413, 0.2369268850561890875143]
  const Nodes6: seq<real> := [-0.9324695142031520278123, -0.661209386466264513661, -0.2386191860831969086305,
                              0.238619186083196908631, 0.661209386466264513661, 0.9324695142031520278123]
  const Weights6: seq<real> := [0.1713244923791703450403, 0.3607615730481386075698, 0.4679139345726910473899,
                                0.46791393457269104739, 0.3607615730481386075698, 0.1713244923791703450403]
  const Nodes7: seq<real> := [-0.9491079123427585245262, -0.7415311855993944398639, -0.4058451513773971669066, 0.0,
                              0.4058451513773971669066, 0.7415311855993944398639, 0.9491079123427585245262]
  const Weights7: seq<real> := [0.1294849661688696932706, 0.2797053914892766679015, 0.38183005050511894495,
                                0.417959183673469387755, 0.38183005050511894495, 0.279705391489276667901,
                                0.129484966168869693271]

  // The 7-point rule on the reference triangle (0,0), (1,0), (0,1).
  const TriangleNodes7: seq<Point> := [
    Point(0.1012865073234563, 0.1012865073234563),
    Point(0.7974269853530872, 0.1012865073234563),
    Point(0.1012865073234563, 0.7974269853530872),
    Point(0.4701420641051151, 0.4701420641051151),
    Point(0.05971587178976981, 0.4701420641051151),
    Point(0.4701420641051151, 0.05971587178976981),
    Point(0.3333333333333333, 0.3333333333333333)]
  const TriangleWeights7: seq<real> := [0.06296959027241358, 0.06296959027241358, 0.06296959027241358,
                                        0.06619707639425308, 0.06619707639425308, 0.06619707639425308,
                                        0.1125]

  /** Consecutive entries increase, so the whole sequence is strictly increasing. */
  predicate Ascending(s: seq<real>)
  {
    forall i :: 0 <= i < |s| - 1 ==> s[i] < s[i + 1]
  }

  predicate Inside(s: seq<real>, a: real, b: real)
  {
    forall i :: 0 <= i < |s| ==> a < s[i] < b
  }

  predicate Positive(s: seq<real>)
  {
    forall i :: 0 <= i < |s| ==> s[i] > 0.0
  }

  /** The point lies in the closed reference triangle. */
  predicate InReferenceTriangle(t: Point)
  {
    t.x >= 0.0 && t.y >= 0.0 && t.x + t.y <= 1.0
  }

  /** `gauss1DNodesRef`: the Gauss-Legendre nodes for 2 to 7 points. */
  function Gauss1DNodesRef(numNodes: int): (r: Result<seq<real>>)
    requires numNodes > 1
    ensures r.Ok? <==> numNodes <= 7
    ensures r.Ok? ==> |r.value| == numNodes && Ascending(r.value) && Inside(r.value, -1.0, 1.0)
  {
    match numNodes
    case 2 => Ok(Nodes2)
    case 3 => Ok(Nodes3)
    case 4 => Ok(Nodes4)
    case 5 => Ok(Nodes5)
    case 6 => Ok(Nodes6)
    case 7 => Ok(Nodes7)
    case _ => Err(UnsupportedQuadratureOrder(numNodes))
  }

  /** `gauss1DWeightsRef`: the matching positive weights. */
  function Gauss1DWeightsRef(numNodes: int): (r: Result<seq<real>>)
    requires numNodes > 1
    ensures r.Ok? <==> numNodes <= 7
    ensures r.Ok? ==> |r.value| == numNodes && Positive(r.value)
  {
    match numNodes
    case 2 => Ok(Weights2)
    case 3 => Ok(Weights3)
    case 4 => Ok(Weights4)
    case 5 => Ok(Weights5)
    case 6 => Ok(Weights6)
    case 7 => Ok(Weights7)
    case _ => Err(UnsupportedQuadratureOrder(numNodes))
  }

  /** The two-point weights sum to exactly 2, the length of [-1, 1]; the longer decimal tables do not sum to 2 exactly. */
  lemma TwoPointWeightSum()
    ensures Gauss1DWeightsRef(2) == Ok([1.0, 1.0]) && Sum(Gauss1DWeightsRef(2).value) == 2.0
  {
    assert Sum(Weights2) == Sum([1.0]) + 1.0;
  }

  /** `gauss2DNodesRef`: only the 7-point rule exists, and its nodes lie in the reference triangle. */
  function Gauss2DNodesRef(numNodes: int): (r: Result<seq<Point>>)
    requires numNodes > 1
    ensures r.Ok? <==> numNodes == 7
    ensures r.Ok? ==> |r.value| == numNodes && forall i :: 0 <= i < |r.value| ==> InReferenceTriangle(r.value[i])
  {
    if numNodes == 7 then Ok(TriangleNodes7) else Err(UnsupportedQuadratureOrder(numNodes))
  }

  /** `gauss2DWeightsRef`: the matching positive weights. */
  function Gauss2DWeightsRef(numNodes: int): (r: Result<seq<real>>)
    requires numNodes > 1
    ensures r.Ok? <==> numNodes == 7
    ensures r.Ok? ==> |r.value| == numNodes && Positive(r.value)
  {
    if numNodes == 7 then Ok(TriangleWeights7) else Err(UnsupportedQuadratureOrder(numNodes))
  }

  /** The affine map from [-1, 1] onto [a, b]. */
  function AffineTo(a: real, b: real, t: real): real
  {
    (b - a) * t / 2.0 + (a + b) / 2.0
  }

  /** The map sends -1 to a and 1 to b. */
  lemma AffineToEnds(a: real, b: real)
    ensures AffineTo(a, b, -1.0) == a && AffineTo(a, b, 1.0) == b
  {
  }

  /** The map preserves order when a < b. */
  lemma AffineToMonotone(a: real, b: real, s: real, t: real)
    requires a < b && s < t
    ensures AffineTo(a, b, s) < AffineTo(a, b, t)
  {
    var h := b - a;
    PositiveProduct(h, t - s);
    assert h * t - h * s == h * (t - s);
    assert AffineTo(a, b, t) == h * t / 2.0 + (a + b) / 2.0;
    assert AffineTo(a, b, s) == h * s / 2.0 + (a + b) / 2.0;
  }

  /** So the open interval (-1, 1) goes into (a, b). */
  lemma AffineToInside(a: real, b: real, t: real)
    requires a < b && -1.0 < t < 1.0
    ensures a < AffineTo(a, b, t) < b
  {
    AffineToEnds(a, b);
    AffineToMonotone(a, b, -1.0, t);
    AffineToMonotone(a, b, t, 1.0);
  }

  lemma PositiveProduct(x: real, y: real)
    requires x > 0.0 && y > 0.0
    ensures x * y > 0.0
  {
  }

  /** The loop of the 1D node maps: every reference node sent through AffineTo(a, b, _). */
  /** The reference points t carried onto [a, b]. */
  function AffineMapped(a: real, b: real, t: seq<real>): seq<real>
  {
    seq(|t|, i requires 0 <= i < |t| => AffineTo(a, b, t[i]))
  }

  /** The weights w, each scaled by c. */
  function Scaled(w: seq<real>, c: real): seq<real>
  {
    seq(|w|, i requires 0 <= i < |w| => c * w[i])
  }

  method AffineImage(a: real, b: real, t: seq<real>) returns (r: seq<real>)
    ensures |r| == |t| && forall i :: 0 <= i < |t| ==> r[i] == AffineTo(a, b, t[i])
    ensures r == AffineMapped(a, b, t)
    ensures a < b && Ascending(t) && Inside(t, -1.0, 1.0) ==> Ascending(r) && Inside(r, a, b)
  {
    var localNodes := new real[|t|];
    for i := 0 to |t|
      invariant forall k :: 0 <= k < i ==> localNodes[k] == AffineTo(a, b, t[k])
    {
      localNodes[i] := (b - a) * t[i] / 2.0 + (a + b) / 2.0;
    }
    r := localNodes[..];
    assert forall i :: 0 <= i < |t| ==> r[i] == AffineMapped(a, b, t)[i];
    if a < b && Ascending(t) && Inside(t, -1.0, 1.0) {
      forall i | 0 <= i < |t|
        ensures a < r[i] < b
        ensures i < |t| - 1 ==> r[i] < r[i + 1]
      {
        AffineToInside(a, b, t[i]);
        if i < |t| - 1 {
          AffineToMonotone(a, b, t[i], t[i + 1]);
        }
      }
    }
  }

  /** The loop of the weight maps: every reference weight times `c` (so by SumScaled the total scales by `c`). */
  method ScaledWeights(w: seq<real>, c: real) returns (r: seq<real>)
    ensures |r| == |w| && forall i :: 0 <= i < |w| ==> r[i] == c * w[i]
    ensures r == Scaled(w, c)
    ensures c > 0.0 && Positive(w) ==> Positive(r)
  {
    var localWeights := new real[|w|];
    for i := 0 to |w|
      invariant forall k :: 0 <= k < i ==> localWeights[k] == c * w[k]
    {
      localWeights[i] := c * w[i];
    }
    r := localWeights[..];
    assert forall i :: 0 <= i < |w| ==> r[i] == Scaled(w, c)[i];
    if c > 0.0 && Positive(w) {
      forall i | 0 <= i < |w|
        ensures r[i] > 0.0
      {
        PositiveProduct(c, w[i]);
      }
    }
  }

  /** `gauss1DNodesLocal`: the reference nodes mapped onto element `elementIndex`, strictly inside it and in order. */
  method Gauss1DNodesLocal(mesh: UniformMesh1D, elementIndex: int, numNodes: int) returns (r: Result<seq<real>>)
    requires mesh.Valid() && 0 <= elementIndex < mesh.size && numNodes > 1
    ensures r.Ok? <==> numNodes <= 7
    ensures r.Ok? ==>
      var a := NodeX(mesh.xL, mesh.xR, mesh.size, elementIndex);
      var b := NodeX(mesh.xL, mesh.xR, mesh.size, elementIndex + 1);
      && |r.value| == numNodes
      && (forall i :: 0 <= i < numNodes ==> r.value[i] == AffineTo(a, b, Gauss1DNodesRef(numNodes).value[i]))
      && r.value == AffineMapped(a, b, Gauss1DNodesRef(numNodes).value)
      && Ascending(r.value) && Inside(r.value, a, b)
  {
    var left := mesh.Node(elementIndex, Left);
    var right := mesh.Node(elementIndex, Right);
    var ref := Gauss1DNodesRef(numNodes);
    if ref.Err? {
      return Err(ref.failure);
    }
    NodeXIncreasing(mesh.xL, mesh.xR, mesh.size, elementIndex, elementIndex + 1);
    var localNodes := AffineImage(left.x, right.x, ref.value);
    r := Ok(localNodes);
  }

  /** `gauss1DWeightsLocal`: the reference weights scaled by half the element length. */
  method Gauss1DWeightsLocal(mesh: UniformMesh1D, elementIndex: int, numNodes: int) returns (r: Result<seq<real>>)
    requires mesh.Valid() && 0 <= elementIndex < mesh.size && numNodes > 1
    ensures r.Ok? <==> numNodes <= 7
    ensures r.Ok? ==>
      var h := NodeX(mesh.xL, mesh.xR, mesh.size, elementIndex + 1) - NodeX(mesh.xL, mesh.xR, mesh.size, elementIndex);
      var w := Gauss1DWeightsRef(numNodes).value;
      && |r.value| == numNodes
      && r.value == Scaled(w, h / 2.0)
      && Positive(r.value)
  {
    var left := mesh.Node(elementIndex, Left);
    var right := mesh.Node(elementIndex, Right);
    var ref := Gauss1DWeightsRef(numNodes);
    if ref.Err? {
      return Err(ref.failure);
    }
    NodeXIncreasing(mesh.xL, mesh.xR, mesh.size, elementIndex, elementIndex + 1);
    var half := (right.x - left.x) / 2.0;
    assert half > 0.0;
    var localWeights := ScaledWeights(ref.value, half);
    r := Ok(localWeights);
  }

  /** The affine map x = B t + A1 of the reference triangle onto the triangle A1 A2 A3, with B = [A2 - A1 | A3 - A1]. */
  function MapToElement(A1: Point, A2: Point, A3: Point, t: Point): Point
  {
    Point((A2.x - A1.x) * t.x + (A3.x - A1.x) * t.y + A1.x,
          (A2.y - A1.y) * t.x + (A3.y - A1.y) * t.y + A1.y)
  }

  /** The point with barycentric coordinates (l1, l2, l3) in the triangle A1 A2 A3. */
  function Barycentric(A1: Point, A2: Point, A3: Point, l1: real, l2: real, l3: real): Point
  {
    Point(l1 * A1.x + l2 * A2.x + l3 * A3.x, l1 * A1.y + l2 * A2.y + l3 * A3.y)
  }

  /**
   * The map sends the reference vertices to A1, A2, A3, and sends t to the
   * point with barycentric coordinates (1 - tx - ty, tx, ty).
   */
  lemma MapToElementBarycentric(A1: Point, A2: Point, A3: Point, t: Point)
    ensures MapToElement(A1, A2, A3, Point(0.0, 0.0)) == A1
    ensures MapToElement(A1, A2, A3, Point(1.0, 0.0)) == A2
    ensures MapToElement(A1, A2, A3, Point(0.0, 1.0)) == A3
    ensures MapToElement(A1, A2, A3, t) == Barycentric(A1, A2, A3, 1.0 - t.x - t.y, t.x, t.y)
  {
  }

  /** The Jacobian determinant of the map, det B. */
  function Jacobian(A1: Point, A2: Point, A3: Point): real
  {
    (A2.x - A1.x) * (A3.y - A1.y) - (A3.x - A1.x) * (A2.y - A1.y)
  }

  function Abs(r: real): (a: real)
    ensures a >= 0.0 && (a == r || a == -r)
  {
    if r < 0.0 then -r else r
  }

  /** The vertex matrix whose determinant gives twice the signed area of the triangle. */
  function VertexMatrix(A1: MeshNode2D, A2: MeshNode2D, A3: MeshNode2D): Mat
  {
    [[A1.x, A1.y, 1.0], [A2.x, A2.y, 1.0], [A3.x, A3.y, 1.0]]
  }

  function Position(n: MeshNode2D): Point
  {
    Point(n.x, n.y)
  }

  /** Twice the area computed from the vertex matrix is the absolute Jacobian of the map. */
  lemma AreaIsJacobian(A1: MeshNode2D, A2: MeshNode2D, A3: MeshNode2D)
    ensures 2.0 * (0.5 * Abs(Determinant(VertexMatrix(A1, A2, A3)))) == Abs(Jacobian(Position(A1), Position(A2), Position(A3)))
  {
    VertexDeterminant(A1.x, A1.y, A2.x, A2.y, A3.x, A3.y);
  }

  /** The loop of the triangle node map: every reference point sent through MapToElement. */
  method TriangleImage(A1: Point, A2: Point, A3: Point, t: seq<Point>) returns (r: seq<Point>)
    ensures |r| == |t|
    ensures forall i :: 0 <= i < |t| ==>
      r[i] == MapToElement(A1, A2, A3, t[i]) && r[i] == Barycentric(A1, A2, A3, 1.0 - t[i].x - t[i].y, t[i].x, t[i].y)
  {
    var localNodes := new Point[|t|];
    for i := 0 to |t|
      invariant forall k :: 0 <= k < i ==> localNodes[k] == MapToElement(A1, A2, A3, t[k])
    {
      localNodes[i] := MapToElement(A1, A2, A3, t[i]);
    }
    r := localNodes[..];
    forall i | 0 <= i < |t|
      ensures r[i] == Barycentric(A1, A2, A3, 1.0 - t[i].x - t[i].y, t[i].x, t[i].y)
    {
      MapToElementBarycentric(A1, A2, A3, t[i]);
    }
  }

  /**
   * `gauss2DNodesLocal`: the reference nodes mapped onto element K; each is
   * the point with barycentric coordinates (1 - tx - ty, tx, ty), all
   * non-negative, so it lies in the element.
   */
  method Gauss2DNodesLocal(mesh: Mesh2D, elementIndex: int, numNodes: int) returns (r: Result<seq<Point>>)
    requires mesh.Valid() && 0 <= elementIndex < mesh.size && numNodes > 1
    ensures r.Ok? <==> numNodes == 7
    ensures r.Ok? ==>
      var A1 := Position(mesh.Node(elementIndex, 0));
      var A2 := Position(mesh.Node(elementIndex, 1));
      var A3 := Position(mesh.Node(elementIndex, 2));
      var t := Gauss2DNodesRef(numNodes).value;
      && |r.value| == numNodes
      && forall i :: 0 <= i < numNodes ==>
           && r.value[i] == MapToElement(A1, A2, A3, t[i])
           && r.value[i] == Barycentric(A1, A2, A3, 1.0 - t[i].x - t[i].y, t[i].x, t[i].y)
           && 1.0 - t[i].x - t[i].y >= 0.0 && t[i].x >= 0.0 && t[i].y >= 0.0
  {
    var A1 := mesh.Node(elementIndex, 0);
    var A2 := mesh.Node(elementIndex, 1);
    var A3 := mesh.Node(elementIndex, 2);
    var ref := Gauss2DNodesRef(numNodes);
    if ref.Err? {
      return Err(ref.failure);
    }
    var localNodes := TriangleImage(Position(A1), Position(A2), Position(A3), ref.value);
    r := Ok(localNodes);
  }

  /** `gauss2DWeightsLocal`: the reference weights scaled by twice the element area, which is |det B|. */
  method Gauss2DWeightsLocal(mesh: Mesh2D, elementIndex: int, numNodes: int) returns (r: Result<seq<real>>)
    requires mesh.Valid() && 0 <= elementIndex < mesh.size && numNodes > 1
    requires Determinant(VertexMatrix(mesh.Node(elementIndex, 0), mesh.Node(elementIndex, 1), mesh.Node(elementIndex, 2))) != 0.0
    ensures r.Ok? <==> numNodes == 7
    ensures r.Ok? ==>
      var J := Jacobian(Position(mesh.Node(elementIndex, 0)), Position(mesh.Node(elementIndex, 1)), Position(mesh.Node(elementIndex, 2)));
      var w := Gauss2DWeightsRef(numNodes).value;
      && |r.value| == numNodes
      && (forall i :: 0 <= i < numNodes ==> r.value[i] == Abs(J) * w[i])
      && Positive(r.value)
  {
    var A1 := mesh.Node(elementIndex, 0);
    var A2 := mesh.Node(elementIndex, 1);
    var A3 := mesh.Node(elementIndex, 2);
    var ref := Gauss2DWeightsRef(numNodes);
    if ref.Err? {
      return Err(ref.failure);
    }
    var area := 0.5 * Abs(Determinant(VertexMatrix(A1, A2, A3)));
    AreaIsJacobian(A1, A2, A3);
    var localWeights := ScaledWeights(ref.value, 2.0 * area);
    r := Ok(localWeights);
  }

  /** The point at parameter t in [-1, 1] on the segment from A1 to A2. */
  function AlongEdge(A1: Point, A2: Point, t: real): Point
  {
    Point(AffineTo(A1.x, A2.x, t), AffineTo(A1.y, A2.y, t))
  }

  /** The edge map sends -1 to A1 and 1 to A2, and every t to the convex combination with weight (1 + t) / 2 on A2. */
  lemma AlongEdgeSegment(A1: Point, A2: Point, t: real)
    ensures AlongEdge(A1, A2, -1.0) == A1 && AlongEdge(A1, A2, 1.0) == A2
    ensures var s := (1.0 + t) / 2.0;
      AlongEdge(A1, A2, t) == Point((1.0 - s) * A1.x + s * A2.x, (1.0 - s) * A1.y + s * A2.y)
    ensures -1.0 < t < 1.0 ==> 0.0 < (1.0 + t) / 2.0 < 1.0
  {
  }

  /** The loop of the edge node map: every reference node placed along the segment from A1 to A2. */
  method EdgeImage(A1: Point, A2: Point, t: seq<real>) returns (r: seq<Point>)
    ensures |r| == |t|
    ensures forall i :: 0 <= i < |t| ==> r[i] == AlongEdge(A1, A2, t[i])
    ensures Inside(t, -1.0, 1.0) ==> forall i :: 0 <= i < |t| ==>
      var s := (1.0 + t[i]) / 2.0;
      0.0 < s < 1.0 && r[i] == Point((1.0 - s) * A1.x + s * A2.x, (1.0 - s) * A1.y + s * A2.y)
  {
    var localNodes := new Point[|t|];
    for i := 0 to |t|
      invariant forall k :: 0 <= k < i ==> localNodes[k] == AlongEdge(A1, A2, t[k])
    {
      localNodes[i] := Point((A2.x - A1.x) * t[i] / 2.0 + (A1.x + A2.x) / 2.0,
                             (A2.y - A1.y) * t[i] / 2.0 + (A1.y + A2.y) / 2.0);
    }
    r := localNodes[..];
    forall i | 0 <= i < |t|
      ensures var s := (1.0 + t[i]) / 2.0;
        r[i] == Point((1.0 - s) * A1.x + s * A2.x, (1.0 - s) * A1.y + s * A2.y)
        && (-1.0 < t[i] < 1.0 ==> 0.0 < s < 1.0)
    {
      AlongEdgeSegment(A1, A2, t[i]);
    }
  }

  /** `distance` is the Euclidean distance between A1 and A2: the non-negative root of the squared distance. */
  predicate IsLength(distance: real, A1: Point, A2: Point)
  {
    distance >= 0.0 && distance * distance == (A2.x - A1.x) * (A2.x - A1.x) + (A2.y - A1.y) * (A2.y - A1.y)
  }

  /** The endpoints of edge `edgeIndex`, in the order the edge list stores them. */
  function EdgeEnds(mesh: Mesh2D, edgeIndex: int): (ends: (Point, Point))
    requires mesh.Valid() && 0 <= edgeIndex < mesh.numEdges
    ensures ends.0 == Position(mesh.meshNodes[mesh.edgeArray[edgeIndex][0]])
    ensures ends.1 == Position(mesh.meshNodes[mesh.edgeArray[edgeIndex][1]])
  {
    (Position(mesh.meshNodes[mesh.edgeArray[edgeIndex][0]]), Position(mesh.meshNodes[mesh.edgeArray[edgeIndex][1]]))
  }

  /** `gaussEdgeNodesLocal`: the 1D reference nodes placed along edge `edgeIndex`, strictly between its ends. */
  method GaussEdgeNodesLocal(mesh: Mesh2D, edgeIndex: int, numNodes: int) returns (r: Result<seq<Point>>)
    requires mesh.Valid() && 0 <= edgeIndex < mesh.numEdges && numNodes > 1
    ensures r.Ok? <==> numNodes <= 7
    ensures r.Ok? ==>
      var ends := EdgeEnds(mesh, edgeIndex);
      var t := Gauss1DNodesRef(numNodes).value;
      && |r.value| == numNodes
      && forall i :: 0 <= i < numNodes ==>
           && r.value[i] == AlongEdge(ends.0, ends.1, t[i])
           && var s := (1.0 + t[i]) / 2.0;
              0.0 < s < 1.0 && r.value[i] == Point((1.0 - s) * ends.0.x + s * ends.1.x, (1.0 - s) * ends.0.y + s * ends.1.y)
  {
    var A1 := mesh.meshNodes[mesh.edgeArray[edgeIndex][0]];
    var A2 := mesh.meshNodes[mesh.edgeArray[edgeIndex][1]];
    var ref := Gauss1DNodesRef(numNodes);
    if ref.Err? {
      return Err(ref.failure);
    }
    var localNodes := EdgeImage(Position(A1), Position(A2), ref.value);
    r := Ok(localNodes);
  }

  /**
   * `gaussEdgeWeightsLocal`: the reference weights scaled by half the edge
   * length. The length is passed in, pinned down as the non-negative square
   * root of the squared distance between the ends.
   */
  method GaussEdgeWeightsLocal(mesh: Mesh2D, edgeIndex: int, numNodes: int, distance: real) returns (r: Result<seq<real>>)
    requires mesh.Valid() && 0 <= edgeIndex < mesh.numEdges && numNodes > 1
    requires IsLength(distance, EdgeEnds(mesh, edgeIndex).0, EdgeEnds(mesh, edgeIndex).1)
    ensures r.Ok? <==> numNodes <= 7
    ensures r.Ok? ==>
      var w := Gauss1DWeightsRef(numNodes).value;
      && |r.value| == numNodes
      && r.value == Scaled(w, distance / 2.0)
  {
    var ref := Gauss1DWeightsRef(numNodes);
    if ref.Err? {
      return Err(ref.failure);
    }
    var localWeights := ScaledWeights(ref.value, distance / 2.0);
    r := Ok(localWeights);
  }
}
