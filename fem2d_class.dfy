/**
 * The two-dimensional finite-element space FEM2D<N> (Meshing/2D/FEM2D.h):
 * the constructor that numbers the DOFs and fills the DOF table phase by
 * phase, the element and node accessors, the point-in-element test and the
 * evaluation of the finite-element function and its first derivatives.
 */
module FiniteElementMethod2D {
  import opened Boundary
  import opened TriangularMesh
  import opened Quadrature
  import opened Shape2D
  import opened PullBack2D
  import opened PullBackProperties2D
  import opened Vectors
  import opened Elimination
  import opened FiniteElements2D
  import opened ConstrainedDofs2D
  import opened FiniteElementSpace2D

  /** Node a stands where node b stands, with b's tag and corner flag; only the values of the unknowns may differ. */
  predicate SameSite(a: FENode2D, b: FENode2D)
  {
    a.(vars := b.vars) == b && |a.vars| == |b.vars|
  }

  /**
   * The body of the constructor: the DOF nodes and the DOF table, filled in
   * the order the source fills them (vertices, vertex columns, edges, edge
   * slots, interiors), and the boundary list after the bubble sort.
   */
  method BuildSpace2D(m: Mesh2D, N: nat, p: int) returns (nodes: array<FENode2D>, conn: array2<int>, B: seq<int>)
    requires m.Valid() && p > 0
    ensures fresh(nodes) && fresh(conn)
    ensures nodes.Length == NumDofs(m, p)
    ensures conn.Length0 == m.size && conn.Length1 == RowWidth(p)
    ensures forall n :: 0 <= n < nodes.Length ==> nodes[n] == DofNode(m, N, p, n)
    ensures forall K, j :: 0 <= K < m.size && 0 <= j < RowWidth(p) ==> conn[K, j] == ConnEntry(m, p, K, j)
    ensures B == ConstrainedBelow(m, p, NumDofs(m, p))
  {
    CountLayout(m, p);
    NumDofsFormula(m, p);
    var Ng := m.numNodes + (p - 1) * m.numEdges + (p - 1) * (p - 2) * m.size / 2;
    nodes := new FENode2D[Ng](_ => DefaultNode(N));
    conn := new int[m.size, (p + 2) * (p + 1) / 2];
    B := PlaceVertexDofs(m, N, p, nodes);
    CopyVertexColumns(m, p, conn);
    ghost var afterVertices := nodes[..];
    assert Placed(m, N, p, afterVertices, 0, m.numNodes);
    B := PlaceEdgeDofs(m, N, p, nodes, B);
    PlacedExtend(m, N, p, afterVertices, nodes[..], 0, m.numNodes, InteriorStart(m, p));
    FillAllEdgeSlots(m, p, conn);
    ghost var afterEdges := nodes[..];
    PlaceInteriorDofs(m, N, p, nodes, conn);
    PlacedExtend(m, N, p, afterEdges, nodes[..], 0, InteriorStart(m, p), NumDofs(m, p));
    ConstrainedBelowInterior(m, p, NumDofs(m, p));
    SortKeepsConstrained(m, p, NumDofs(m, p));
    B := SortIndices(B);
  }

  /** Every DOF node carries N unknowns, all zero. */
  lemma DofNodeUnknowns(m: Mesh2D, N: nat, p: int, n: int)
    requires m.Valid() && p > 0 && 0 <= n < NumDofs(m, p)
    ensures DofNode(m, N, p, n).vars == Zeros(N)
  {
  }

  /** The loop of the initial-condition constructor: unknown 0 of every node becomes f at the node. */
  method Interpolate(nodes: array<FENode2D>, f: (real, real) -> real)
    requires forall n :: 0 <= n < nodes.Length ==> |nodes[n].vars| > 0
    modifies nodes
    ensures forall n :: 0 <= n < nodes.Length ==>
      nodes[n] == old(nodes[n]).(vars := old(nodes[n]).vars[0 := f(old(nodes[n]).x, old(nodes[n]).y)])
  {
    for i := 0 to nodes.Length
      invariant forall n :: 0 <= n < i ==>
        nodes[n] == old(nodes[n]).(vars := old(nodes[n]).vars[0 := f(old(nodes[n]).x, old(nodes[n]).y)])
      invariant forall n :: i <= n < nodes.Length ==> nodes[n] == old(nodes[n])
    {
      nodes[i] := nodes[i].(vars := nodes[i].vars[0 := f(nodes[i].x, nodes[i].y)]);
    }
  }

  // ---------------------------------------------------------------------
  // Shape functions of one element
  // ---------------------------------------------------------------------

  /** The degree-p shape functions of the triangle A1 A2 A3 at (x, y), or one of their first derivatives, in local order. */
  function ShapeValues2D(x: real, y: real, A1: Point, A2: Point, A3: Point, p: int, dx: nat, dy: nat): (phis: seq<real>)
    requires Jacobian(A1, A2, A3) != 0.0 && (p == 1 || p == 2) && dx + dy <= 1
    requires NearReferenceTriangle(ToReference(A1, A2, A3, Point(x, y)))
    ensures |phis| == ShapeCount(p)
  {
    seq(ShapeCount(p), j requires 0 <= j < ShapeCount(p) => ShapeFunction2D(x, y, A1, A2, A3, p, j, dx, dy).value)
  }

  /** For the supported degrees a row of the DOF table holds one entry per shape function. */
  lemma RowWidthIsShapeCount(p: int)
    requires p == 1 || p == 2
    ensures RowWidth(p) == ShapeCount(p)
  {
    LocalLayout(p);
  }

  /**
   * Values that agree on the whole element reproduce the constant: the
   * combination of the shape functions is that constant, and its first
   * derivatives vanish.
   */
  lemma CombinationOfConstant(x: real, y: real, A1: Point, A2: Point, A3: Point, p: int, dx: nat, dy: nat, us: seq<real>, c: real)
    requires Jacobian(A1, A2, A3) != 0.0 && (p == 1 || p == 2) && dx + dy <= 1
    requires NearReferenceTriangle(ToReference(A1, A2, A3, Point(x, y)))
    requires |us| == ShapeCount(p) && forall j :: 0 <= j < |us| ==> us[j] == c
    ensures Dot(us, ShapeValues2D(x, y, A1, A2, A3, p, dx, dy)) == if dx == 0 && dy == 0 then c else 0.0
  {
    var phis := ShapeValues2D(x, y, A1, A2, A3, p, dx, dy);
    ShapeValuesSum(x, y, A1, A2, A3, p, dx, dy);
    DotOfConstant(us, phis, c, |us|);
    assert phis[..|us|] == phis;
    assert Dot(us, phis) == c * Sum(phis);
  }

  /** The entries of ShapeValues2D add up to one, and the entries of a first derivative to zero. */
  lemma ShapeValuesSum(x: real, y: real, A1: Point, A2: Point, A3: Point, p: int, dx: nat, dy: nat)
    requires Jacobian(A1, A2, A3) != 0.0 && (p == 1 || p == 2) && dx + dy <= 1
    requires NearReferenceTriangle(ToReference(A1, A2, A3, Point(x, y)))
    ensures Sum(ShapeValues2D(x, y, A1, A2, A3, p, dx, dy)) == if dx == 0 && dy == 0 then 1.0 else 0.0
  {
    var phis := ShapeValues2D(x, y, A1, A2, A3, p, dx, dy);
    ShapePartitionOfUnity2D(x, y, A1, A2, A3, p, dx, dy);
    SumOfFew(phis);
  }

  /** The sums of three and of six entries, written out. */
  lemma SumOfFew(s: seq<real>)
    ensures |s| == 3 ==> Sum(s) == s[0] + s[1] + s[2]
    ensures |s| == 6 ==> Sum(s) == s[0] + s[1] + s[2] + s[3] + s[4] + s[5]
  {
    if |s| == 3 || |s| == 6 {
      SumStep(s, 0);
      SumStep(s, 1);
      SumStep(s, 2);
      assert s[..0] == [];
      if |s| == 6 {
        SumStep(s, 3);
        SumStep(s, 4);
        SumStep(s, 5);
        assert s[..6] == s;
      } else {
        assert s[..3] == s;
      }
    }
  }

  /** A dot product whose first factors all equal c: c times the sum of the second factors. */
  lemma {:induction false} DotOfConstant(us: seq<real>, phis: seq<real>, c: real, k: nat)
    requires |us| == |phis| && k <= |us| && forall j :: 0 <= j < |us| ==> us[j] == c
    ensures DotUpTo(us, phis, k) == c * Sum(phis[..k])
  {
    if k > 0 {
      DotOfConstant(us, phis, c, k - 1);
      SumStep(phis, k - 1);
      DotStep(us, phis, k - 1, c, phis[k - 1]);
    }
    if k == |us| {
      assert phis[..k] == phis;
    }
  }

  /** At the image of reference node k the combination of the shape functions is the k-th value: Lagrange interpolation. */
  lemma CombinationAtNode(A1: Point, A2: Point, A3: Point, p: int, k: int, us: seq<real>)
    requires Jacobian(A1, A2, A3) != 0.0 && (p == 1 || p == 2) && 0 <= k < ShapeCount(p) && |us| == ShapeCount(p)
    ensures var P := MapToElement(A1, A2, A3, RefNode(p, k));
      && NearReferenceTriangle(ToReference(A1, A2, A3, P))
      && Dot(us, ShapeValues2D(P.x, P.y, A1, A2, A3, p, 0, 0)) == us[k]
  {
    var P := MapToElement(A1, A2, A3, RefNode(p, k));
    ShapeKronecker2D(A1, A2, A3, p, 0, k);
    var phis := ShapeValues2D(P.x, P.y, A1, A2, A3, p, 0, 0);
    forall j | 0 <= j < |phis|
      ensures phis[j] == if j == k then 1.0 else 0.0
    {
      ShapeKronecker2D(A1, A2, A3, p, j, k);
    }
    DotSingle(us, phis, k, |us|);
  }

  /**
   * Local node k of element K (for degrees 1 and 2) sits at the image of
   * reference node k: the table's local numbering agrees with the shape
   * functions' numbering.
   */
  lemma LocalNodePosition(m: Mesh2D, N: nat, p: int, K: int, k: int)
    requires m.Valid() && (p == 1 || p == 2) && 0 <= K < m.size && 0 <= k < ShapeCount(p)
    ensures k < RowWidth(p) && 0 <= ConnEntry(m, p, K, k) < NumDofs(m, p)
    ensures var node := DofNode(m, N, p, ConnEntry(m, p, K, k));
      var (A1, A2, A3) := Corners(m, K);
      Point(node.x, node.y) == MapToElement(A1, A2, A3, RefNode(p, k))
  {
    RowWidthIsShapeCount(p);
    ConnEntryRange(m, p, K, k);
    var (A1, A2, A3) := Corners(m, K);
    if k < 3 {
      var I := m.connectivity[K][k];
      DofNodeOfVertex(m, N, p, I);
      MapToElementBarycentric(A1, A2, A3, RefNode(p, k));
      assert RefNode(p, k) == Degree1Node(k);
    } else {
      MidpointDofs(m, N, K, k - 3);
    }
  }

  /**
   * The arithmetic of `isInTriangle`: B = [A2 - A1 | A3 - A1] is inverted in
   * place (swap the diagonal, negate the off-diagonal, divide by the
   * determinant) and applied to P - A1, which gives the reference point of P.
   */
  method ReferencePoint(A1: MeshNode2D, A2: MeshNode2D, A3: MeshNode2D, x: real, y: real) returns (tx: real, ty: real)
    requires Jacobian(Position(A1), Position(A2), Position(A3)) != 0.0
    ensures Point(tx, ty) == ToReference(Position(A1), Position(A2), Position(A3), Point(x, y))
  {
    ghost var T := Transformation(Position(A1), Position(A2), Position(A3));
    var B := Mat2(A2.x - A1.x, A3.x - A1.x, A2.y - A1.y, A3.y - A1.y);
    var determinant := B.a00 * B.a11 - B.a01 * B.a10;
    assert determinant == Det(T) != 0.0 by {
      TransformationDet(Position(A1), Position(A2), Position(A3));
    }
    var temp := B.a00;
    B := B.(a00 := B.a11);
    B := B.(a11 := temp);
    B := B.(a01 := -1.0 * B.a01);
    B := B.(a10 := -1.0 * B.a10);
    assert B == Mat2(T.a11, -T.a01, -T.a10, T.a00);
    B := Mat2(B.a00 / determinant, B.a01 / determinant, B.a10 / determinant, B.a11 / determinant);
    assert B == Inverse(T);
    var v := Point(x - A1.x, y - A1.y);
    tx := B.a00 * v.x + B.a01 * v.y;
    ty := B.a10 * v.x + B.a11 * v.y;
    assert Point(tx, ty) == Apply(B, v);
    assert InverseTransformation(Position(A1), Position(A2), Position(A3)) == B;
  }

  // ---------------------------------------------------------------------
  // The space
  // ---------------------------------------------------------------------

  /** One shape-function call of the element sum; on success it is entry j of the shape values phis. */
  method ShapeAt2D(x: real, y: real, A1: Point, A2: Point, A3: Point, p: int, j: int, dx: nat, dy: nat, ghost phis: seq<real>)
    returns (phi: Result<real>)
    requires Jacobian(A1, A2, A3) != 0.0 && NearReferenceTriangle(ToReference(A1, A2, A3, Point(x, y)))
    requires 0 <= j < RowWidth(p) && |phis| == RowWidth(p)
    requires (p == 1 || p == 2) && dx + dy <= 1 ==> phis == ShapeValues2D(x, y, A1, A2, A3, p, dx, dy)
    ensures phi.Ok? <==> (p == 1 || p == 2) && dx + dy <= 1
    ensures phi.Err? ==> phi.failure == if dx + dy <= 1 then UnsupportedPolynomialOrder(p) else UnsupportedDerivative(dx, dy)
    ensures phi.Ok? ==> phi.value == phis[j]
  {
    if p == 1 || p == 2 {
      RowWidthIsShapeCount(p);
    }
    phi := ShapeFunction2D(x, y, A1, A2, A3, p, j, dx, dy);
  }

  /**
   * The loop of `evaluate(varIndex, x, y, elementIndex, dx, dy)`: nodal
   * values read through the element's DOF row, times the shape values,
   * summed in order; the first unsupported shape-function call ends it.
   */
  method ElementSum2D(x: real, y: real, A1: Point, A2: Point, A3: Point, p: int, dx: nat, dy: nat,
                    nodes: array<FENode2D>, row: seq<int>, v: int, ghost us: seq<real>) returns (r: Result<real>)
    requires p > 0 && Jacobian(A1, A2, A3) != 0.0 && NearReferenceTriangle(ToReference(A1, A2, A3, Point(x, y)))
    requires |row| == |us| == RowWidth(p)
    requires forall j :: 0 <= j < |row| ==> 0 <= row[j] < nodes.Length && 0 <= v < |nodes[row[j]].vars|
    requires forall j :: 0 <= j < |row| ==> nodes[row[j]].vars[v] == us[j]
    ensures r.Ok? <==> (p == 1 || p == 2) && dx + dy <= 1
    ensures r.Err? ==> r.failure == if dx + dy <= 1 then UnsupportedPolynomialOrder(p) else UnsupportedDerivative(dx, dy)
    ensures r.Ok? ==> RowWidth(p) == ShapeCount(p) && r.value == Dot(us, ShapeValues2D(x, y, A1, A2, A3, p, dx, dy))
  {
    ghost var supported := (p == 1 || p == 2) && dx + dy <= 1;
    if p == 1 || p == 2 {
      RowWidthIsShapeCount(p);
    }
    ghost var phis := if supported then ShapeValues2D(x, y, A1, A2, A3, p, dx, dy) else us;
    assert |phis| == |row|;
    LocalLayout(p);
    var sum := 0.0;
    for j := 0 to |row|
      invariant j > 0 ==> supported
      invariant sum == DotUpTo(us, phis, j)
    {
      var phi := ShapeAt2D(x, y, A1, A2, A3, p, j, dx, dy, phis);
      if phi.Err? {
        return Err(phi.failure);
      }
      var u, w := nodes[row[j]].vars[v], phi.value;
      DotStep(us, phis, j, u, w);
      sum := sum + u * w;
    }
    return Ok(sum);
  }

  class FEM2D {
    const mesh: Mesh2D
    /** The number of unknowns per node (the template parameter N). */
    const N: nat
    const polynomialOrder: int
    /** The number of finite-element nodes. */
    const Ng: int
    /** The constrained DOFs, in increasing order. */
    const boundaryIndices: seq<int>
    const FENodes: array<FENode2D>
    const connectivityMatrix: array2<int>

    /**
     * The numbering the constructor sets up. Positions, tags and corner
     * flags of the nodes are fixed from then on; only the values of the N
     * unknowns change.
     */
    ghost predicate Valid()
      reads this, FENodes, connectivityMatrix
    {
      && mesh.Valid() && N > 0 && polynomialOrder > 0
      && Ng == NumDofs(mesh, polynomialOrder) && FENodes.Length == Ng
      && connectivityMatrix.Length0 == mesh.size && connectivityMatrix.Length1 == RowWidth(polynomialOrder)
      && (forall K, j :: 0 <= K < mesh.size && 0 <= j < RowWidth(polynomialOrder) ==>
            connectivityMatrix[K, j] == ConnEntry(mesh, polynomialOrder, K, j) && 0 <= connectivityMatrix[K, j] < Ng)
      && (forall n :: 0 <= n < Ng ==> SameSite(FENodes[n], DofNode(mesh, N, polynomialOrder, n)))
      && boundaryIndices == ConstrainedBelow(mesh, polynomialOrder, Ng)
    }

    /** `FEM2D(mesh, order)`: the numbering of a degree-`order` space with N unknowns per node, every value 0. */
    constructor (FEmesh: Mesh2D, N: nat, order: int)
      requires FEmesh.Valid() && N > 0 && order > 0 && FEmesh.numBoundaryNodes >= 0
      ensures Valid() && fresh(FENodes) && fresh(connectivityMatrix)
      ensures mesh == FEmesh && this.N == N && polynomialOrder == order
      ensures Ng == FEmesh.numNodes + (order - 1) * FEmesh.numEdges + (order - 1) * (order - 2) * FEmesh.size / 2
      ensures connectivityMatrix.Length1 == (order + 2) * (order + 1) / 2
      ensures forall n :: 0 <= n < Ng ==> FENodes[n] == DofNode(FEmesh, N, order, n)
    {
      var nodes, conn, B := BuildSpace2D(FEmesh, N, order);
      NumDofsFormula(FEmesh, order);
      forall K, j | 0 <= K < FEmesh.size && 0 <= j < RowWidth(order)
        ensures 0 <= conn[K, j] < NumDofs(FEmesh, order)
      {
        ConnEntryRange(FEmesh, order, K, j);
      }
      mesh := FEmesh;
      this.N := N;
      polynomialOrder := order;
      Ng := NumDofs(FEmesh, order);
      boundaryIndices := B;
      FENodes := nodes;
      connectivityMatrix := conn;
    }

    /** `FEM2D(mesh, order, initialCondition)`: as above, with unknown 0 of each node the initial condition at the node. */
    constructor WithInitialCondition(FEmesh: Mesh2D, N: nat, order: int, initialCondition: (real, real) -> real)
      requires FEmesh.Valid() && N > 0 && order > 0 && FEmesh.numBoundaryNodes >= 0
      ensures Valid() && fresh(FENodes) && fresh(connectivityMatrix)
      ensures mesh == FEmesh && this.N == N && polynomialOrder == order
      ensures Ng == FEmesh.numNodes + (order - 1) * FEmesh.numEdges + (order - 1) * (order - 2) * FEmesh.size / 2
      ensures forall n :: 0 <= n < Ng ==>
        var node := DofNode(FEmesh, N, order, n);
        FENodes[n] == node.(vars := node.vars[0 := initialCondition(node.x, node.y)])
    {
      var nodes, conn, B := BuildSpace2D(FEmesh, N, order);
      NumDofsFormula(FEmesh, order);
      forall K, j | 0 <= K < FEmesh.size && 0 <= j < RowWidth(order)
        ensures 0 <= conn[K, j] < NumDofs(FEmesh, order)
      {
        ConnEntryRange(FEmesh, order, K, j);
      }
      forall n | 0 <= n < nodes.Length
        ensures |nodes[n].vars| == N
      {
        DofNodeUnknowns(FEmesh, N, order, n);
      }
      Interpolate(nodes, initialCondition);
      mesh := FEmesh;
      this.N := N;
      polynomialOrder := order;
      Ng := NumDofs(FEmesh, order);
      boundaryIndices := B;
      FENodes := nodes;
      connectivityMatrix := conn;
    }

    /** The boundary list holds exactly the DOFs whose tag is constrained, in increasing order. */
    lemma BoundaryIndicesAreConstrained()
      requires Valid()
      ensures StrictlyIncreasing(boundaryIndices)
      ensures forall d :: d in boundaryIndices <==> 0 <= d < Ng && FENodes[d].bc.IsConstrained()
    {
      var p := polynomialOrder;
      ConstrainedBelowIncreasing(mesh, p, Ng);
      ConstrainedBelowBounds(mesh, p, Ng);
      ConstrainedBelowMembers(mesh, p, Ng);
      forall d | 0 <= d < Ng
        ensures ConstrainedDof(mesh, p, d) <==> FENodes[d].bc.IsConstrained()
      {
        DofTags(mesh, N, p, d);
        assert FENodes[d].bc == DofNode(mesh, N, p, d).bc;
      }
    }

    /** `fem[elementIndex]`: the element's row of the DOF table. */
    method Element(elementIndex: int) returns (row: seq<int>)
      requires Valid() && 0 <= elementIndex < mesh.size
      ensures |row| == RowWidth(polynomialOrder)
      ensures forall j :: 0 <= j < |row| ==> row[j] == ConnEntry(mesh, polynomialOrder, elementIndex, j)
    {
      row := seq(connectivityMatrix.Length1, j requires 0 <= j < connectivityMatrix.Length1 reads connectivityMatrix =>
        connectivityMatrix[elementIndex, j]);
    }

    /** `fem(elementIndex, nodeIndex)`: the node of the element's local DOF, which is the DOF the table names. */
    method NodeAt(elementIndex: int, nodeIndex: int) returns (node: FENode2D)
      requires Valid() && 0 <= elementIndex < mesh.size
      requires 0 <= nodeIndex < RowWidth(polynomialOrder)
      ensures 0 <= ConnEntry(mesh, polynomialOrder, elementIndex, nodeIndex) < Ng
      ensures node == FENodes[ConnEntry(mesh, polynomialOrder, elementIndex, nodeIndex)]
      ensures SameSite(node, DofNode(mesh, N, polynomialOrder, ConnEntry(mesh, polynomialOrder, elementIndex, nodeIndex)))
    {
      node := FENodes[connectivityMatrix[elementIndex, nodeIndex]];
    }

    /**
     * `fem(elementIndex, nodeIndex)[v] = value`: unknown v of the node the
     * table names changes; every other unknown and node stays.
     */
    method SetVariable(elementIndex: int, nodeIndex: int, v: int, value: real)
      requires Valid() && 0 <= elementIndex < mesh.size && 0 <= nodeIndex < RowWidth(polynomialOrder) && 0 <= v < N
      modifies FENodes
      ensures Valid()
      ensures var d := ConnEntry(mesh, polynomialOrder, elementIndex, nodeIndex);
        0 <= d < Ng && v < |old(FENodes[d]).vars| &&
        FENodes[..] == old(FENodes[..])[d := old(FENodes[d]).(vars := old(FENodes[d]).vars[v := value])]
    {
      var d := connectivityMatrix[elementIndex, nodeIndex];
      DofNodeUnknowns(mesh, N, polynomialOrder, d);
      var node := FENodes[d];
      FENodes[d] := node.(vars := node.vars[v := value]);
      assert SameSite(FENodes[d], DofNode(mesh, N, polynomialOrder, d));
    }

    /**
     * `FENodes[n][v] = value`, a write through the public node array: unknown
     * v of node n changes; every other unknown and node stays.
     */
    method SetNodeVariable(n: int, v: int, value: real)
      requires Valid() && 0 <= n < Ng && 0 <= v < N
      modifies FENodes
      ensures Valid()
      ensures v < |old(FENodes[n]).vars|
      ensures FENodes[..] == old(FENodes[..])[n := old(FENodes[n]).(vars := old(FENodes[n]).vars[v := value])]
    {
      DofNodeUnknowns(mesh, N, polynomialOrder, n);
      var node := FENodes[n];
      FENodes[n] := node.(vars := node.vars[v := value]);
      assert SameSite(FENodes[n], DofNode(mesh, N, polynomialOrder, n));
    }

    /** Element K is not degenerate: its map from the reference triangle has a nonzero Jacobian. */
    predicate NonDegenerate(K: int)
      requires mesh.Valid() && 0 <= K < mesh.size
    {
      var (A1, A2, A3) := Corners(mesh, K);
      Jacobian(A1, A2, A3) != 0.0
    }

    /** (x, y) lies in element K: its reference point lies in the reference triangle, up to Tolerance. */
    predicate InTriangle(x: real, y: real, K: int)
      requires mesh.Valid() && 0 <= K < mesh.size && NonDegenerate(K)
    {
      var (A1, A2, A3) := Corners(mesh, K);
      NearReferenceTriangle(ToReference(A1, A2, A3, Point(x, y)))
    }

    /**
     * `isInTriangle(x, y, elementIndex)`: B = [A2 - A1 | A3 - A1] is inverted
     * in place (swap the diagonal, negate the off-diagonal, divide by the
     * determinant) and the reference point B^-1 (P - A1) is checked.
     */
    method IsInTriangle(x: real, y: real, elementIndex: int) returns (inside: bool)
      requires Valid() && 0 <= elementIndex < mesh.size && NonDegenerate(elementIndex)
      ensures inside == InTriangle(x, y, elementIndex)
    {
      var A1 := mesh.Node(elementIndex, 0);
      var A2 := mesh.Node(elementIndex, 1);
      var A3 := mesh.Node(elementIndex, 2);
      var tx, ty := ReferencePoint(A1, A2, A3, x, y);
      inside := tx > -1.0 * Tolerance && ty > -1.0 * Tolerance && ty < 1.0 - tx + Tolerance;
    }

    /** Every point of the reference triangle (up to Tolerance) is carried into the element by x = B t + A1. */
    lemma InTriangleOfMap(K: int, t: Point)
      requires Valid() && 0 <= K < mesh.size && NonDegenerate(K) && NearReferenceTriangle(t)
      ensures var (A1, A2, A3) := Corners(mesh, K); var P := MapToElement(A1, A2, A3, t);
        InTriangle(P.x, P.y, K)
    {
      var (A1, A2, A3) := Corners(mesh, K);
      ToReferenceOfMap(A1, A2, A3, t);
      var P := MapToElement(A1, A2, A3, t);
      assert Point(P.x, P.y) == P;
    }

    /** The values of unknown v at element K's DOFs, in local order. */
    ghost function ElementValues(v: int, K: int): (us: seq<real>)
      reads this, FENodes, connectivityMatrix
      requires Valid() && 0 <= v < N && 0 <= K < mesh.size
      ensures |us| == RowWidth(polynomialOrder)
    {
      seq(RowWidth(polynomialOrder),
        j requires 0 <= j < RowWidth(polynomialOrder) && 0 <= connectivityMatrix[K, j] < FENodes.Length
                   && v < |FENodes[connectivityMatrix[K, j]].vars|
          reads FENodes, connectivityMatrix =>
        FENodes[connectivityMatrix[K, j]].vars[v])
    }

    /**
     * The finite-element function of unknown v on element K, or one of its
     * first derivatives, at (x, y): the sum over the element's DOFs of the
     * DOF's value times its shape function.
     */
    ghost function ElementValue(v: int, K: int, x: real, y: real, dx: nat, dy: nat): real
      reads this, FENodes, connectivityMatrix
      requires Valid() && 0 <= v < N && 0 <= K < mesh.size && NonDegenerate(K) && InTriangle(x, y, K)
      requires (polynomialOrder == 1 || polynomialOrder == 2) && dx + dy <= 1
    {
      var (A1, A2, A3) := Corners(mesh, K);
      RowWidthIsShapeCount(polynomialOrder);
      Dot(ElementValues(v, K), ShapeValues2D(x, y, A1, A2, A3, polynomialOrder, dx, dy))
    }
  
    /**
     * `evaluate(varIndex, x, y, elementIndex, dx, dy)`: the sum over the
     * element's DOFs of the DOF's value of unknown varIndex times the
     * matching shape function (or its derivative) at (x, y). Degrees other
     * than 1 and 2, and derivatives of order above one, are reported by the
     * shape functions as unsupported.
     */
    method EvaluateIn(varIndex: int, x: real, y: real, elementIndex: int, xDerivativeOrder: nat, yDerivativeOrder: nat)
      returns (r: Result<real>)
      requires Valid() && 0 <= varIndex < N && 0 <= elementIndex < mesh.size
      requires NonDegenerate(elementIndex) && InTriangle(x, y, elementIndex)
      ensures r.Ok? <==> (polynomialOrder == 1 || polynomialOrder == 2) && xDerivativeOrder + yDerivativeOrder <= 1
      ensures r.Err? ==> r.failure == if xDerivativeOrder + yDerivativeOrder <= 1 then UnsupportedPolynomialOrder(polynomialOrder)
                                      else UnsupportedDerivative(xDerivativeOrder, yDerivativeOrder)
      ensures r.Ok? ==> r.value == ElementValue(varIndex, elementIndex, x, y, xDerivativeOrder, yDerivativeOrder)
    {
      var A1, A2, A3 := Position(mesh.Node(elementIndex, 0)), Position(mesh.Node(elementIndex, 1)), Position(mesh.Node(elementIndex, 2));
      assert (A1, A2, A3) == Corners(mesh, elementIndex);
      var row := Element(elementIndex);
      ghost var us := ElementValues(varIndex, elementIndex);
      r := ElementSum2D(x, y, A1, A2, A3, polynomialOrder, xDerivativeOrder, yDerivativeOrder, FENodes, row, varIndex, us);
    }

    /** The search loop of `evaluate(varIndex, x, y, dx, dy)`: the first element containing (x, y), or -1. */
    method FindElement(x: real, y: real) returns (K: int)
      requires Valid() && forall k :: 0 <= k < mesh.size ==> NonDegenerate(k)
      ensures -1 <= K < mesh.size
      ensures K == -1 <==> forall k :: 0 <= k < mesh.size ==> !InTriangle(x, y, k)
      ensures K >= 0 ==> InTriangle(x, y, K) && forall k :: 0 <= k < K ==> !InTriangle(x, y, k)
    {
      K := -1;
      for i := 0 to mesh.size
        invariant forall k :: 0 <= k < i ==> !InTriangle(x, y, k)
      {
        var inside := IsInTriangle(x, y, i);
        if inside {
          K := i;
          return;
        }
      }
    }

    /**
     * `evaluate(varIndex, x, y, dx, dy)`: evaluation in the first element that
     * contains (x, y); a point outside every element is reported as outside
     * the domain before the degree and derivative are looked at.
     */
    method Evaluate(varIndex: int, x: real, y: real, xDerivativeOrder: nat, yDerivativeOrder: nat) returns (r: Result<real>)
      requires Valid() && 0 <= varIndex < N && forall k :: 0 <= k < mesh.size ==> NonDegenerate(k)
      ensures r.Ok? <==> (exists k :: 0 <= k < mesh.size && InTriangle(x, y, k)) &&
                         (polynomialOrder == 1 || polynomialOrder == 2) && xDerivativeOrder + yDerivativeOrder <= 1
      ensures r.Err? && r.failure == OutsideDomain <==> forall k :: 0 <= k < mesh.size ==> !InTriangle(x, y, k)
      ensures r.Ok? ==> exists K :: (0 <= K < mesh.size && InTriangle(x, y, K) && (forall k :: 0 <= k < K ==> !InTriangle(x, y, k)) &&
                                     r.value == ElementValue(varIndex, K, x, y, xDerivativeOrder, yDerivativeOrder))
    {
      var K := FindElement(x, y);
      if K < 0 {
        return Err(OutsideDomain);
      }
      r := EvaluateIn(varIndex, x, y, K, xDerivativeOrder, yDerivativeOrder);
    }

    /**
     * The finite-element function interpolates its nodal values: on degree-1
     * and degree-2 spaces its value at the node of local DOF k of element K,
     * which lies in the element, is that DOF's value.
     */
    lemma EvaluateAtLocalNode(v: int, K: int, k: int)
      requires Valid() && 0 <= v < N && 0 <= K < mesh.size && NonDegenerate(K)
      requires (polynomialOrder == 1 || polynomialOrder == 2) && 0 <= k < ShapeCount(polynomialOrder)
      ensures k < RowWidth(polynomialOrder)
      ensures var node := FENodes[connectivityMatrix[K, k]];
        InTriangle(node.x, node.y, K) && ElementValue(v, K, node.x, node.y, 0, 0) == node.vars[v]
    {
      var p := polynomialOrder;
      LocalNodePosition(mesh, N, p, K, k);
      var node := FENodes[connectivityMatrix[K, k]];
      var (A1, A2, A3) := Corners(mesh, K);
      var us := ElementValues(v, K);
      RowWidthIsShapeCount(p);
      CombinationAtNode(A1, A2, A3, p, k, us);
      assert Point(node.x, node.y) == MapToElement(A1, A2, A3, RefNode(p, k));
    }

    /**
     * Nodal values that are constant on an element reproduce the constant
     * there, and the first derivatives of the function vanish.
     */
    lemma EvaluateConstant(v: int, K: int, x: real, y: real, dx: nat, dy: nat, c: real)
      requires Valid() && 0 <= v < N && 0 <= K < mesh.size && NonDegenerate(K) && InTriangle(x, y, K)
      requires (polynomialOrder == 1 || polynomialOrder == 2) && dx + dy <= 1
      requires forall j :: 0 <= j < RowWidth(polynomialOrder) ==> FENodes[connectivityMatrix[K, j]].vars[v] == c
      ensures ElementValue(v, K, x, y, dx, dy) == if dx == 0 && dy == 0 then c else 0.0
    {
      var (A1, A2, A3) := Corners(mesh, K);
      RowWidthIsShapeCount(polynomialOrder);
      CombinationOfConstant(x, y, A1, A2, A3, polynomialOrder, dx, dy, ElementValues(v, K), c);
    }
  }
}
