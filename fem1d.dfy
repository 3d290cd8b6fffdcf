/**
 * The one-dimensional finite-element space (FEM1D.cpp): Lagrange elements of
 * degree p on a UniformMesh1D. Element e owns the global degrees of freedom
 * e p, e p + 1, ..., e p + p, so neighbouring elements share their common
 * vertex; DOF e p + i sits at xL_e + i (xR_e - xL_e) / p; only vertex DOFs
 * carry the mesh's boundary tags, and the constrained ones are listed in
 * increasing order.
 */
module FiniteElements1D {
  import opened Boundary
  import opened Vectors
  import opened Mesh1D
  import opened Shape1D
  import opened Elimination
  import opened Quadrature
  import opened Numbering

  /** A finite-element node: coordinate, nodal value and boundary tag (FENode1D in Meshing/Nodes.h). */
  datatype FENode1D = FENode1D(x: real, u: real, bc: BC)

  /** A node that has not been written yet: all fields at their defaults. */
  const DefaultNode := FENode1D(0.0, 0.0, Interior)

  // ---------------------------------------------------------------------
  // The numbering as values
  // ---------------------------------------------------------------------

  /**
   * The node that DOF I of a degree-p space on the mesh nodes `vs` starts
   * with: a vertex DOF takes the mesh node's coordinate and tag, a DOF inside
   * an element sits at the matching fraction of the element and is Interior.
   */
  function DofNode(vs: seq<MeshNode1D>, p: nat, I: nat): (n: FENode1D)
    requires p > 0 && |vs| >= 2 && I <= (|vs| - 1) * p
    ensures n.u == 0.0
  {
    BlockRange(|vs| - 1, p, I);
    var e, i := I / p, I % p;
    if i == 0 then FENode1D(vs[e].x, 0.0, vs[e].bc)
    else FENode1D(NodeX(vs[e].x, vs[e + 1].x, p, i), 0.0, Interior)
  }

  /** Local node j of element e is global DOF e p + j. */
  function Row(e: nat, p: nat): seq<int>
  {
    seq(p + 1, j => e * p + j)
  }

  /** The element-to-DOF table of `size` elements of degree p. */
  function Connectivity(size: nat, p: nat): seq<seq<int>>
  {
    seq(size, (e: nat) => Row(e, p))
  }

  /**
   * Every entry of the table names a DOF, and the last DOF of each element is
   * the first DOF of the next one, so consecutive elements share exactly
   * their common vertex.
   */
  lemma ConnectivityShared(size: nat, p: nat)
    requires p > 0
    ensures forall e :: 0 <= e < size - 1 ==> Connectivity(size, p)[e][p] == Connectivity(size, p)[e + 1][0]
    ensures forall e, i, j :: 0 <= e < size && 0 <= i < j <= p ==> Connectivity(size, p)[e][i] < Connectivity(size, p)[e][j]
  {
  }

  /** Every entry of the table names one of the size p + 1 DOFs. */
  lemma ConnectivityBounds(size: nat, p: nat, e: nat, j: nat)
    requires p > 0 && e < size && j <= p
    ensures 0 <= Connectivity(size, p)[e][j] < size * p + 1
  {
    BlockOrder(e, size, p);
  }

  /** The coordinates of the element's DOFs are the element's own uniform subdivision into p parts. */
  lemma {:induction false} ElementDofs(vs: seq<MeshNode1D>, p: nat, e: nat, j: nat)
    requires p > 0 && |vs| >= 2 && e < |vs| - 1 && j <= p
    ensures e * p + j <= (|vs| - 1) * p
    ensures DofNode(vs, p, e * p + j).x == NodeX(vs[e].x, vs[e + 1].x, p, j)
    ensures DofNode(vs, p, e * p + j).bc == if j == 0 then vs[e].bc else if j == p then vs[e + 1].bc else Interior
  {
    BlockOrder(e, |vs| - 1, p);
    NodeXEnds(vs[e].x, vs[e + 1].x, p);
    if j < p {
      BlockDivMod(p, e, j);
    } else {
      assert e * p + j == (e + 1) * p + 0;
      BlockDivMod(p, e + 1, 0);
    }
  }

  /** The constrained vertex DOFs among the first n vertices, in increasing order. */
  function BoundaryList(vs: seq<MeshNode1D>, p: nat, n: nat): seq<int>
    requires n <= |vs|
  {
    if n == 0 then []
    else BoundaryList(vs, p, n - 1) + (if vs[n - 1].bc.IsConstrained() then [(n - 1) * p] else [])
  }

  /** The constrained vertices among the first n, in increasing order. */
  function BoundaryVertices(vs: seq<MeshNode1D>, n: nat): seq<nat>
    requires n <= |vs|
  {
    if n == 0 then []
    else BoundaryVertices(vs, n - 1) + (if vs[n - 1].bc.IsConstrained() then [n - 1] else [])
  }

  /** The boundary list is the list of constrained vertices, each scaled by p. */
  lemma {:induction false} BoundaryListScaled(vs: seq<MeshNode1D>, p: nat, n: nat)
    requires n <= |vs|
    ensures |BoundaryList(vs, p, n)| == |BoundaryVertices(vs, n)|
    ensures forall m :: 0 <= m < |BoundaryVertices(vs, n)| ==> BoundaryList(vs, p, n)[m] == BoundaryVertices(vs, n)[m] * p
  {
    if n > 0 {
      BoundaryListScaled(vs, p, n - 1);
    }
  }

  /**
   * The constrained vertices come in increasing order, are all constrained,
   * include every constrained vertex, and are as many as CountConstrained says.
   */
  lemma {:induction false} BoundaryVerticesSpec(vs: seq<MeshNode1D>, n: nat)
    requires n <= |vs|
    ensures forall a, b :: 0 <= a < b < |BoundaryVertices(vs, n)| ==> BoundaryVertices(vs, n)[a] < BoundaryVertices(vs, n)[b]
    ensures forall m :: 0 <= m < |BoundaryVertices(vs, n)| ==>
      BoundaryVertices(vs, n)[m] < n && vs[BoundaryVertices(vs, n)[m]].bc.IsConstrained()
    ensures forall k :: 0 <= k < n && vs[k].bc.IsConstrained() ==> k in BoundaryVertices(vs, n)
    ensures |BoundaryVertices(vs, n)| == CountConstrained(vs[..n])
  {
    if n > 0 {
      BoundaryVerticesSpec(vs, n - 1);
      assert vs[..n][..n - 1] == vs[..n - 1];
    }
  }

  /** The boundary list is strictly increasing. */
  lemma BoundaryListSorted(vs: seq<MeshNode1D>, p: nat)
    requires p > 0
    ensures StrictlyIncreasing(BoundaryList(vs, p, |vs|))
  {
    var B := BoundaryList(vs, p, |vs|);
    var V := BoundaryVertices(vs, |vs|);
    BoundaryListScaled(vs, p, |vs|);
    BoundaryVerticesSpec(vs, |vs|);
    forall a, b | 0 <= a < b < |B|
      ensures B[a] < B[b]
    {
      BlockOrder(V[a], V[b], p);
    }
  }

  /** Every entry of the boundary list is a DOF of the space whose starting tag is constrained. */
  lemma BoundaryListSound(vs: seq<MeshNode1D>, p: nat)
    requires p > 0 && |vs| >= 2
    ensures IndicesBelow(BoundaryList(vs, p, |vs|), (|vs| - 1) * p + 1)
    ensures forall m :: 0 <= m < |BoundaryList(vs, p, |vs|)| ==>
      0 <= BoundaryList(vs, p, |vs|)[m] <= (|vs| - 1) * p &&
      DofNode(vs, p, BoundaryList(vs, p, |vs|)[m]).bc.IsConstrained()
  {
    var n := |vs|;
    var B := BoundaryList(vs, p, n);
    var V := BoundaryVertices(vs, n);
    BoundaryListScaled(vs, p, n);
    BoundaryVerticesSpec(vs, n);
    forall m | 0 <= m < |B|
      ensures 0 <= B[m] <= (n - 1) * p && DofNode(vs, p, B[m]).bc.IsConstrained()
    {
      if V[m] < n - 1 {
        BlockOrder(V[m], n - 1, p);
      }
      BlockDivMod(p, V[m], 0);
    }
  }

  /** Every DOF whose starting tag is constrained is in the boundary list. */
  lemma BoundaryListComplete(vs: seq<MeshNode1D>, p: nat, I: nat)
    requires p > 0 && |vs| >= 2 && I <= (|vs| - 1) * p && DofNode(vs, p, I).bc.IsConstrained()
    ensures I in BoundaryList(vs, p, |vs|)
  {
    var n := |vs|;
    var V := BoundaryVertices(vs, n);
    BoundaryListScaled(vs, p, n);
    BoundaryVerticesSpec(vs, n);
    BlockRange(n - 1, p, I);
    var k := I / p;
    assert I == k * p + I % p;
    var m :| 0 <= m < |V| && V[m] == k;
    assert BoundaryList(vs, p, n)[m] == I;
  }

  /**
   * The boundary list holds exactly the DOFs whose starting tag is
   * constrained, and is as long as the number of constrained mesh nodes.
   */
  lemma BoundaryListIsConstrainedDofs(vs: seq<MeshNode1D>, p: nat)
    requires p > 0 && |vs| >= 2
    ensures forall I :: 0 <= I <= (|vs| - 1) * p ==>
      (I in BoundaryList(vs, p, |vs|) <==> DofNode(vs, p, I).bc.IsConstrained())
    ensures |BoundaryList(vs, p, |vs|)| == CountConstrained(vs)
  {
    BoundaryListSound(vs, p);
    forall I | 0 <= I <= (|vs| - 1) * p && DofNode(vs, p, I).bc.IsConstrained()
      ensures I in BoundaryList(vs, p, |vs|)
    {
      BoundaryListComplete(vs, p, I);
    }
    BoundaryListScaled(vs, p, |vs|);
    BoundaryVerticesSpec(vs, |vs|);
    assert vs[..|vs|] == vs;
  }

  // ---------------------------------------------------------------------
  // The finite-element function on one element
  // ---------------------------------------------------------------------

  /** The shape functions of the element with DOF coordinates `xs`, or their derivatives of order d, at x. */
  function ShapeValues(xs: seq<real>, x: real, d: nat): (r: seq<real>)
    requires |xs| >= 2 && Increasing(xs)
    ensures |r| == |xs|
  {
    seq(|xs|, j requires 0 <= j < |xs| => ShapeValue(xs, x, j, d))
  }

  /** The derivative of order d at x of the function with nodal values `us` on the element with DOF coordinates `xs`. */
  function Interpolant(xs: seq<real>, us: seq<real>, x: real, d: nat): real
    requires |xs| >= 2 && Increasing(xs) && |us| == |xs|
  {
    Dot(us, ShapeValues(xs, x, d))
  }

  /** The finite-element function takes its nodal value at every node of the element. */
  lemma InterpolantAtNode(xs: seq<real>, us: seq<real>, m: nat)
    requires |xs| >= 2 && Increasing(xs) && |us| == |xs| && m < |xs|
    ensures Interpolant(xs, us, xs[m], 0) == us[m]
  {
    var phis := ShapeValues(xs, xs[m], 0);
    forall k | 0 <= k < |xs|
      ensures phis[k] == if k == m then 1.0 else 0.0
    {
      ShapeKronecker(xs, k, m);
    }
    DotSingle(us, phis, m, |xs|);
  }

  /** On elements of degree p every derivative of order above p is zero. */
  lemma InterpolantHighDerivative(xs: seq<real>, us: seq<real>, x: real, d: nat)
    requires |xs| >= 2 && Increasing(xs) && |us| == |xs| && d >= |xs|
    ensures Interpolant(xs, us, x, d) == 0.0
  {
    var phis := ShapeValues(xs, x, d);
    forall k | 0 <= k < |xs|
      ensures phis[k] == 0.0
    {
      ShapeHighDerivative(xs, x, k, d);
    }
    DotZero(us, phis, |xs|);
  }

  /** The uniform subdivision of [a, b] into p parts, as p + 1 coordinates. */
  function Subdivision(a: real, b: real, p: nat): (xs: seq<real>)
    requires p > 0
    ensures |xs| == p + 1
  {
    seq(p + 1, (j: nat) => NodeX(a, b, p, j))
  }

  /** The subdivision of a proper interval is increasing and runs from a to b. */
  lemma SubdivisionIncreasing(a: real, b: real, p: nat)
    requires p > 0 && a < b
    ensures Increasing(Subdivision(a, b, p))
    ensures Subdivision(a, b, p)[0] == a && Subdivision(a, b, p)[p] == b
  {
    NodeXEnds(a, b, p);
    forall j | 0 <= j < p
      ensures NodeX(a, b, p, j) < NodeX(a, b, p, j + 1)
    {
      NodeXIncreasing(a, b, p, j, j + 1);
    }
  }

  /** The element function sampled at each quadrature point. */
  function Samples(xs: seq<real>, us: seq<real>, points: seq<real>): (r: seq<real>)
    requires |xs| >= 2 && Increasing(xs) && |us| == |xs|
    ensures |r| == |points|
  {
    seq(|points|, i requires 0 <= i < |points| => Interpolant(xs, us, points[i], 0))
  }

  /** The weighted sum of the element function over the quadrature points. */
  function QuadratureSum(xs: seq<real>, us: seq<real>, points: seq<real>, weights: seq<real>): real
    requires |xs| >= 2 && Increasing(xs) && |us| == |xs| && |weights| == |points|
  {
    Dot(weights, Samples(xs, us, points))
  }

  /** A function whose nodal values all vanish integrates to zero under every rule. */
  lemma QuadratureOfZero(xs: seq<real>, us: seq<real>, points: seq<real>, weights: seq<real>)
    requires |xs| >= 2 && Increasing(xs) && |us| == |xs| && |weights| == |points|
    requires forall j :: 0 <= j < |us| ==> us[j] == 0.0
    ensures QuadratureSum(xs, us, points, weights) == 0.0
  {
    var vs := Samples(xs, us, points);
    forall i | 0 <= i < |points|
      ensures vs[i] == 0.0
    {
      DotZero(us, ShapeValues(xs, points[i], 0), |us|);
    }
    DotZero(weights, vs, |points|);
  }

  // ---------------------------------------------------------------------
  // Building the space
  // ---------------------------------------------------------------------

  /** The coordinate loop of one element: DOFs base .. base + p - 1 placed at the uniform subdivision of [xL, xR]. */
  method PlaceElementDofs(nodes: array<FENode1D>, base: nat, p: nat, xL: real, xR: real)
    requires p > 0 && base + p <= nodes.Length
    modifies nodes
    ensures forall I :: 0 <= I < nodes.Length && !(base <= I < base + p) ==> nodes[I] == old(nodes[I])
    ensures forall I :: base <= I < base + p ==> nodes[I] == old(nodes[I]).(x := NodeX(xL, xR, p, I - base))
  {
    for i := 0 to p
      invariant forall I :: 0 <= I < nodes.Length && !(base <= I < base + i) ==> nodes[I] == old(nodes[I])
      invariant forall I :: base <= I < base + i ==> nodes[I] == old(nodes[I]).(x := NodeX(xL, xR, p, I - base))
    {
      nodes[base + i] := nodes[base + i].(x := NodeX(xL, xR, p, i));
    }
  }

  /** The table row of one element, built as the coordinate loop goes. */
  method ElementRow(elem: nat, p: nat) returns (row: seq<int>)
    ensures row == Row(elem, p)
  {
    row := [];
    for i := 0 to p
      invariant |row| == i && forall j :: 0 <= j < i ==> row[j] == elem * p + j
    {
      row := row + [elem * p + i];
    }
    row := row + [(elem + 1) * p];
  }

  /** After the element's pass, its first p DOFs hold their starting nodes. */
  lemma ElementPassDone(vs: seq<MeshNode1D>, p: nat, elem: nat, base: nat, nodes: seq<FENode1D>)
    requires p > 0 && elem + 1 < |vs| && base == elem * p && base + p <= |nodes|
    requires nodes[base] == DefaultNode.(x := NodeX(vs[elem].x, vs[elem + 1].x, p, 0), bc := vs[elem].bc)
    requires forall I :: base < I < base + p ==> nodes[I] == DefaultNode.(x := NodeX(vs[elem].x, vs[elem + 1].x, p, I - base))
    ensures base + p <= (|vs| - 1) * p
    ensures forall I :: base <= I < base + p ==> nodes[I] == DofNode(vs, p, I)
  {
    BlockOrder(elem, |vs| - 1, p);
    forall I | base <= I < base + p
      ensures nodes[I] == DofNode(vs, p, I)
    {
      ElementDofs(vs, p, elem, I - base);
    }
  }

  /**
   * The constructor's loop over the elements and its final step: the DOF
   * coordinates and tags, the element-to-DOF table and the boundary list.
   */
  method BuildSpace(mesh: UniformMesh1D, p: nat) returns (nodes: array<FENode1D>, conn: seq<seq<int>>, B: seq<int>)
    requires mesh.Valid() && p > 0
    ensures fresh(nodes) && nodes.Length == mesh.size * p + 1
    ensures forall I :: 0 <= I < nodes.Length ==> nodes[I] == DofNode(mesh.meshNodes[..], p, I)
    ensures conn == Connectivity(mesh.size, p)
    ensures B == BoundaryList(mesh.meshNodes[..], p, mesh.size + 1)
  {
    ghost var vs := mesh.meshNodes[..];
    var size := mesh.size;
    nodes := new FENode1D[size * p + 1](_ => DefaultNode);
    conn := [];
    B := [];
    for elem := 0 to size
      invariant elem * p <= size * p
      invariant forall I :: 0 <= I < elem * p ==> nodes[I] == DofNode(vs, p, I)
      invariant forall I :: elem * p <= I < nodes.Length ==> nodes[I] == DefaultNode
      invariant conn == Connectivity(elem, p)
      invariant B == BoundaryList(vs, p, elem)
    {
      BlockOrder(elem, size, p);
      conn, B := BuildElement(mesh, p, nodes, elem, elem * p, conn, B);
      assert (elem + 1) * p == elem * p + p;
    }
    var last := mesh.Node(size - 1, Right);
    nodes[size * p] := nodes[size * p].(x := last.x, bc := last.bc);
    if last.bc.Value() >= 0 {
      B := B + [size * p];
    }
    BlockDivMod(p, size, 0);
  }

  /** One round of the constructor's element loop: element `elem` places its DOFs, its table row and its left boundary tag. */
  method BuildElement(mesh: UniformMesh1D, p: nat, nodes: array<FENode1D>, elem: nat, base: nat, conn: seq<seq<int>>, B: seq<int>)
    returns (conn': seq<seq<int>>, B': seq<int>)
    requires mesh.Valid() && p > 0 && elem < mesh.size && base == elem * p
    requires nodes.Length == mesh.size * p + 1 && base + p <= mesh.size * p
    requires forall I :: 0 <= I < base ==> nodes[I] == DofNode(mesh.meshNodes[..], p, I)
    requires forall I :: base <= I < nodes.Length ==> nodes[I] == DefaultNode
    requires conn == Connectivity(elem, p)
    requires B == BoundaryList(mesh.meshNodes[..], p, elem)
    modifies nodes
    ensures forall I :: 0 <= I < base + p ==> nodes[I] == DofNode(mesh.meshNodes[..], p, I)
    ensures forall I :: base + p <= I < nodes.Length ==> nodes[I] == DefaultNode
    ensures conn' == Connectivity(elem + 1, p)
    ensures B' == BoundaryList(mesh.meshNodes[..], p, elem + 1)
  {
    ghost var vs := mesh.meshNodes[..];
    var left := mesh.Node(elem, Left);
    var right := mesh.Node(elem, Right);
    PlaceElementDofs(nodes, base, p, left.x, right.x);
    var row := ElementRow(elem, p);
    nodes[base] := nodes[base].(bc := left.bc);
    ElementPassDone(vs, p, elem, base, nodes[..]);
    conn' := conn + [row];
    B' := B;
    if left.bc.Value() >= 0 {
      B' := B + [base];
    }
    assert conn' == Connectivity(elem + 1, p);
  }

  /**
   * The loop of `evaluate(x, K, d)`: for each local node j, the nodal value
   * of DOF row[j] times shape j of the element with DOF coordinates xs.
   */
  /** One shape function value, named by its place in `phis`. */
  method ShapeAt(x: real, xs: seq<real>, j: nat, d: nat, ghost phis: seq<real>) returns (phi: real)
    requires |xs| >= 2 && Increasing(xs) && xs[0] <= x <= xs[|xs| - 1] && j < |xs|
    requires phis == ShapeValues(xs, x, d)
    ensures phi == phis[j]
  {
    phi := LagrangeShapeFunction1D(x, xs, j, d);
  }

  /** The element sum of nodal values times shape function values. */
  method ShapeSum(x: real, xs: seq<real>, nodes: array<FENode1D>, row: seq<int>, ghost us: seq<real>, d: nat) returns (v: real)
    requires |xs| >= 2 && Increasing(xs) && xs[0] <= x <= xs[|xs| - 1]
    requires |row| == |xs| == |us|
    requires forall j :: 0 <= j < |row| ==> 0 <= row[j] < nodes.Length && nodes[row[j]].u == us[j]
    ensures v == Interpolant(xs, us, x, d)
  {
    ghost var phis := ShapeValues(xs, x, d);
    var sum := 0.0;
    for j := 0 to |xs|
      invariant sum == DotUpTo(us, phis, j)
    {
      var phi := ShapeAt(x, xs, j, d, phis);
      var u := nodes[row[j]].u;
      DotStep(us, phis, j, u, phi);
      sum := sum + u * phi;
    }
    v := sum;
  }

  /** The loop of `integrateElement`: the weights times the element function at the points, added in order. */
  method QuadratureLoop(xs: seq<real>, nodes: array<FENode1D>, row: seq<int>, ghost us: seq<real>,
                        points: seq<real>, weights: seq<real>) returns (sum: real)
    requires |xs| >= 2 && Increasing(xs) && |points| == |weights|
    requires forall i :: 0 <= i < |points| ==> xs[0] <= points[i] <= xs[|xs| - 1]
    requires |row| == |xs| == |us|
    requires forall j :: 0 <= j < |row| ==> 0 <= row[j] < nodes.Length && nodes[row[j]].u == us[j]
    ensures sum == QuadratureSum(xs, us, points, weights)
  {
    ghost var values := Samples(xs, us, points);
    sum := 0.0;
    for i := 0 to |points|
      invariant sum == DotUpTo(weights, values, i)
    {
      var integrand := ShapeSum(points[i], xs, nodes, row, us, 0);
      DotStep(weights, values, i, weights[i], integrand);
      sum := sum + weights[i] * integrand;
    }
  }

  // ---------------------------------------------------------------------
  // The space
  // ---------------------------------------------------------------------

  class FEM1D {
    const mesh: UniformMesh1D
    const meshSize: nat
    const polynomialOrder: nat
    /** Number of finite-element nodes. */
    const Ng: nat
    /** Number of unconstrained finite-element nodes, as the mesh counts its boundary nodes. */
    const Nu: int
    /** The constrained DOFs, in increasing order. */
    const boundaryIndices: seq<int>
    const FENodes: array<FENode1D>
    const connectivity: seq<seq<int>>
    /** The mesh nodes as they were when the space was built. */
    ghost const vertices: seq<MeshNode1D>

    /**
     * The numbering the constructor sets up. Coordinates and tags of the
     * nodes are fixed from then on; only the nodal values change.
     */
    ghost predicate Valid()
      reads this, FENodes, mesh, mesh.meshNodes, mesh.connectivity
    {
      && mesh.Valid()
      && meshSize == mesh.size && polynomialOrder > 0
      && |vertices| == meshSize + 1
      && (forall k :: 0 <= k <= meshSize ==> vertices[k].x == NodeX(mesh.xL, mesh.xR, mesh.size, k))
      && Ng == meshSize * polynomialOrder + 1
      && FENodes.Length == Ng
      && (forall I :: 0 <= I < Ng ==>
            FENodes[I].x == DofNode(vertices, polynomialOrder, I).x &&
            FENodes[I].bc == DofNode(vertices, polynomialOrder, I).bc)
      && connectivity == Connectivity(meshSize, polynomialOrder)
      && (forall e, j :: 0 <= e < meshSize && 0 <= j <= polynomialOrder ==> 0 <= connectivity[e][j] < Ng)
      && boundaryIndices == BoundaryList(vertices, polynomialOrder, meshSize + 1)
    }

    /** `FEM1D(mesh, order)`: the numbering of a degree-`order` space on the mesh, with every nodal value 0. */
    constructor (FEmesh: UniformMesh1D, order: int)
      requires FEmesh.Valid() && order > 0 && FEmesh.numBoundaryNodes >= 0
      ensures Valid() && fresh(FENodes)
      ensures mesh == FEmesh && polynomialOrder == order && vertices == FEmesh.meshNodes[..]
      ensures Ng == FEmesh.size * order + 1 && Nu == Ng - FEmesh.numBoundaryNodes
      ensures forall I :: 0 <= I < Ng ==> FENodes[I] == DofNode(vertices, order, I)
    {
      var nodes, conn, B := BuildSpace(FEmesh, order);
      forall e, j | 0 <= e < FEmesh.size && 0 <= j <= order
        ensures 0 <= conn[e][j] < FEmesh.size * order + 1
      {
        ConnectivityBounds(FEmesh.size, order, e, j);
      }
      mesh := FEmesh;
      meshSize := FEmesh.size;
      polynomialOrder := order;
      Ng := FEmesh.size * order + 1;
      Nu := FEmesh.size * order + 1 - FEmesh.numBoundaryNodes;
      FENodes := nodes;
      connectivity := conn;
      boundaryIndices := B;
      vertices := FEmesh.meshNodes[..];
    }

    /** `FEM1D(mesh, order, initialCondition)`: as above, with each nodal value the initial condition at the node. */
    constructor WithInitialCondition(FEmesh: UniformMesh1D, order: int, initialCondition: real -> real)
      requires FEmesh.Valid() && order > 0 && FEmesh.numBoundaryNodes >= 0
      ensures Valid() && fresh(FENodes)
      ensures mesh == FEmesh && polynomialOrder == order && vertices == FEmesh.meshNodes[..]
      ensures Ng == FEmesh.size * order + 1 && Nu == Ng - FEmesh.numBoundaryNodes
      ensures forall I :: 0 <= I < Ng ==>
        FENodes[I] == DofNode(vertices, order, I).(u := initialCondition(DofNode(vertices, order, I).x))
    {
      var nodes, conn, B := BuildSpace(FEmesh, order);
      forall e, j | 0 <= e < FEmesh.size && 0 <= j <= order
        ensures 0 <= conn[e][j] < FEmesh.size * order + 1
      {
        ConnectivityBounds(FEmesh.size, order, e, j);
      }
      for i := 0 to nodes.Length
        invariant forall I :: 0 <= I < i ==>
          nodes[I] == DofNode(FEmesh.meshNodes[..], order, I).(u := initialCondition(DofNode(FEmesh.meshNodes[..], order, I).x))
        invariant forall I :: i <= I < nodes.Length ==> nodes[I] == DofNode(FEmesh.meshNodes[..], order, I)
      {
        nodes[i] := nodes[i].(u := initialCondition(nodes[i].x));
      }
      mesh := FEmesh;
      meshSize := FEmesh.size;
      polynomialOrder := order;
      Ng := FEmesh.size * order + 1;
      Nu := FEmesh.size * order + 1 - FEmesh.numBoundaryNodes;
      FENodes := nodes;
      connectivity := conn;
      boundaryIndices := B;
      vertices := FEmesh.meshNodes[..];
    }

    /** The coordinate of mesh node K, which is the left end of element K. */
    function VertexX(K: nat): real
      requires mesh.size > 0
    {
      NodeX(mesh.xL, mesh.xR, mesh.size, K)
    }

    /** The coordinates of element K's DOFs. */
    function ElementCoords(K: nat): (xs: seq<real>)
      requires mesh.size > 0 && mesh.xL < mesh.xR && polynomialOrder > 0
      ensures |xs| == polynomialOrder + 1 && Increasing(xs)
      ensures xs[0] == VertexX(K) && xs[polynomialOrder] == VertexX(K + 1)
    {
      NodeXIncreasing(mesh.xL, mesh.xR, mesh.size, K, K + 1);
      SubdivisionIncreasing(VertexX(K), VertexX(K + 1), polynomialOrder);
      Subdivision(VertexX(K), VertexX(K + 1), polynomialOrder)
    }

    /** The nodal values of element K's DOFs. */
    ghost function ElementValues(K: int): (us: seq<real>)
      reads this, FENodes, mesh, mesh.meshNodes, mesh.connectivity
      requires Valid() && 0 <= K < meshSize
      ensures |us| == polynomialOrder + 1
    {
      BlockOrder(K, meshSize, polynomialOrder);
      seq(polynomialOrder + 1, j requires 0 <= j <= polynomialOrder reads FENodes => FENodes[connectivity[K][j]].u)
    }

    /** x lies in element K, between its two mesh nodes. */
    predicate InElement(K: nat, x: real)
      requires mesh.size > 0
    {
      VertexX(K) <= x <= VertexX(K + 1)
    }

    /** `fem[elementIndex]`: the element's row of the DOF table, e p .. e p + p. */
    method Element(elementIndex: int) returns (row: seq<int>)
      requires Valid() && 0 <= elementIndex < meshSize
      ensures |row| == polynomialOrder + 1
      ensures forall j :: 0 <= j <= polynomialOrder ==> row[j] == elementIndex * polynomialOrder + j
    {
      row := connectivity[elementIndex];
    }

    /** `fem(elementIndex, nodeIndex).u = value`: only the nodal value of that DOF changes. */
    method SetU(elementIndex: int, nodeIndex: int, value: real)
      requires Valid() && 0 <= elementIndex < meshSize && 0 <= nodeIndex <= polynomialOrder
      modifies FENodes
      ensures Valid()
      ensures var d := connectivity[elementIndex][nodeIndex];
        FENodes[..] == old(FENodes[..])[d := old(FENodes[d]).(u := value)]
    {
      var d := connectivity[elementIndex][nodeIndex];
      FENodes[d] := FENodes[d].(u := value);
    }

    /** `fem(elementIndex, nodeIndex)`: the element's local node, which sits at the matching point of its subdivision. */
    method NodeAt(elementIndex: int, nodeIndex: int) returns (node: FENode1D)
      requires Valid() && 0 <= elementIndex < meshSize && 0 <= nodeIndex <= polynomialOrder
      ensures node == FENodes[connectivity[elementIndex][nodeIndex]]
      ensures node.x == ElementCoords(elementIndex)[nodeIndex]
    {
      ElementDofs(vertices, polynomialOrder, elementIndex, nodeIndex);
      node := FENodes[connectivity[elementIndex][nodeIndex]];
    }

    /** The coordinates fem(K, 0).x .. fem(K, p).x that the shape functions of element K read. */
    method ElementDofCoords(K: int) returns (xs: seq<real>)
      requires Valid() && 0 <= K < meshSize
      ensures xs == ElementCoords(K)
    {
      var p := polynomialOrder;
      var buffer := new real[p + 1];
      for j := 0 to p + 1
        invariant forall k :: 0 <= k < j ==> buffer[k] == ElementCoords(K)[k]
      {
        var node := NodeAt(K, j);
        buffer[j] := node.x;
      }
      xs := buffer[..];
    }

    /** `evaluate(x, elementIndex, derivativeOrder)`: the sum of u_j phi_j^(d)(x) over the element's DOFs. */
    method EvaluateIn(x: real, elementIndex: int, derivativeOrder: nat) returns (v: real)
      requires Valid() && 0 <= elementIndex < meshSize && InElement(elementIndex, x)
      ensures v == Interpolant(ElementCoords(elementIndex), ElementValues(elementIndex), x, derivativeOrder)
    {
      var xs := ElementDofCoords(elementIndex);
      v := ShapeSum(x, xs, FENodes, connectivity[elementIndex], ElementValues(elementIndex), derivativeOrder);
    }

    /** The search loop of `evaluate(x, derivativeOrder)`: the first element containing x, or -1. */
    method FindElement(x: real) returns (K: int)
      requires Valid()
      ensures -1 <= K < meshSize
      ensures K == -1 <==> forall k :: 0 <= k < meshSize ==> !InElement(k, x)
      ensures K >= 0 ==> InElement(K, x) && forall k :: 0 <= k < K ==> !InElement(k, x)
    {
      K := -1;
      for i := 0 to meshSize
        invariant forall k :: 0 <= k < i ==> !InElement(k, x)
      {
        var left := mesh.Node(i, Left);
        var right := mesh.Node(i, Right);
        if x >= left.x && x <= right.x {
          assert InElement(i, x);
          K := i;
          return;
        }
      }
    }

    /**
     * `evaluate(x, derivativeOrder)`: evaluation in the first element that
     * contains x; a point outside every element is reported as outside the
     * domain.
     */
    method Evaluate(x: real, derivativeOrder: nat) returns (r: Result<real>)
      requires Valid()
      ensures r.Ok? <==> exists k :: 0 <= k < meshSize && InElement(k, x)
      ensures r.Err? ==> r.failure == OutsideDomain
      ensures r.Ok? ==> exists K :: (0 <= K < meshSize && InElement(K, x) && (forall k :: 0 <= k < K ==> !InElement(k, x)) &&
                                     r.value == Interpolant(ElementCoords(K), ElementValues(K), x, derivativeOrder))
    {
      var K := FindElement(x);
      if K < 0 {
        return Err(OutsideDomain);
      }
      var v := EvaluateIn(x, K, derivativeOrder);
      r := Ok(v);
    }

    /** The points of the n-point Gauss-Legendre rule mapped onto element K. */
    function LocalPoints(K: nat, n: int): (r: seq<real>)
      requires mesh.size > 0 && 1 < n <= 7
      ensures |r| == n
    {
      AffineMapped(VertexX(K), VertexX(K + 1), Gauss1DNodesRef(n).value)
    }

    /** The weights of the n-point Gauss-Legendre rule scaled to element K. */
    function LocalWeights(K: nat, n: int): (r: seq<real>)
      requires mesh.size > 0 && 1 < n <= 7
      ensures |r| == n
    {
      Scaled(Gauss1DWeightsRef(n).value, (VertexX(K + 1) - VertexX(K)) / 2.0)
    }

    /** The n-point quadrature of the finite-element function over element K. */
    ghost function ElementIntegral(K: int, n: int): real
      reads this, FENodes, mesh, mesh.meshNodes, mesh.connectivity
      requires Valid() && 0 <= K < meshSize && 1 < n <= 7
    {
      QuadratureSum(ElementCoords(K), ElementValues(K), LocalPoints(K, n), LocalWeights(K, n))
    }

    /** The element quadratures of elements 0 .. k - 1, added in order. */
    ghost function IntegralUpTo(k: nat, n: int): real
      reads this, FENodes, mesh, mesh.meshNodes, mesh.connectivity
      requires Valid() && k <= meshSize && 1 < n <= 7
    {
      if k == 0 then 0.0 else IntegralUpTo(k - 1, n) + ElementIntegral(k - 1, n)
    }

    /** `integrateElement(elementIndex, n_gq)`: the Gauss-Legendre quadrature of the function over one element. */
    method IntegrateElement(elementIndex: int, n_gq: int) returns (r: Result<real>)
      requires Valid() && 0 <= elementIndex < meshSize && n_gq > 1
      ensures r.Ok? <==> n_gq <= 7
      ensures r.Ok? ==> r.value == ElementIntegral(elementIndex, n_gq)
    {
      var points := Gauss1DNodesLocal(mesh, elementIndex, n_gq);
      var weights := Gauss1DWeightsLocal(mesh, elementIndex, n_gq);
      if points.Err? || weights.Err? {
        return Err(UnsupportedQuadratureOrder(n_gq));
      }
      assert points.value == LocalPoints(elementIndex, n_gq);
      assert weights.value == LocalWeights(elementIndex, n_gq);
      var sum := WeightedSamples(elementIndex, points.value, weights.value);
      r := Ok(sum);
    }

    /** The loop of `integrateElement`: the weighted sum of the element function at the points, which lie in element K. */
    method WeightedSamples(K: int, points: seq<real>, weights: seq<real>) returns (sum: real)
      requires Valid() && 0 <= K < meshSize && |points| == |weights|
      requires forall i :: 0 <= i < |points| ==> InElement(K, points[i])
      ensures sum == QuadratureSum(ElementCoords(K), ElementValues(K), points, weights)
    {
      var xs := ElementDofCoords(K);
      sum := QuadratureLoop(xs, FENodes, connectivity[K], ElementValues(K), points, weights);
    }

    /** `integrate(n_gq)`: the sum of the element quadratures over the whole mesh. */
    method Integrate(n_gq: int) returns (r: Result<real>)
      requires Valid() && n_gq > 1
      ensures r.Ok? <==> n_gq <= 7
      ensures r.Ok? ==> r.value == IntegralUpTo(meshSize, n_gq)
    {
      assert meshSize == mesh.size > 0;
      var sum := 0.0;
      for K := 0 to meshSize
        invariant K > 0 ==> n_gq <= 7
        invariant n_gq <= 7 ==> sum == IntegralUpTo(K, n_gq)
      {
        r := AddElement(K, n_gq, sum);
        if r.Err? {
          return;
        }
        sum := r.value;
      }
      r := Ok(sum);
    }

    /** One round of the loop of `integrate`: the running sum plus the quadrature over element K. */
    method AddElement(K: nat, n_gq: int, sum: real) returns (r: Result<real>)
      requires Valid() && K < meshSize && n_gq > 1
      requires n_gq <= 7 ==> sum == IntegralUpTo(K, n_gq)
      ensures r.Ok? <==> n_gq <= 7
      ensures r.Err? ==> r.failure == UnsupportedQuadratureOrder(n_gq)
      ensures r.Ok? ==> r.value == IntegralUpTo(K + 1, n_gq)
    {
      var element := IntegrateElement(K, n_gq);
      if element.Err? {
        return Err(UnsupportedQuadratureOrder(n_gq));
      }
      r := Ok(sum + element.value);
    }

    /** The zero function integrates to zero over every run of elements. */
    lemma {:induction false} IntegralOfZero(k: nat, n: int)
      requires Valid() && k <= meshSize && 1 < n <= 7
      requires forall I :: 0 <= I < Ng ==> FENodes[I].u == 0.0
      ensures IntegralUpTo(k, n) == 0.0
    {
      if k > 0 {
        IntegralOfZero(k - 1, n);
        QuadratureOfZero(ElementCoords(k - 1), ElementValues(k - 1), LocalPoints(k - 1, n), LocalWeights(k - 1, n));
      }
    }
  }
}
