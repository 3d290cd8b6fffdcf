/**
 * The constructor of the two-dimensional space (Meshing/2D/FEM2D.h), phase
 * by phase, and the FEM2D class built on it. Each phase writes its part of
 * the node array and of the element-to-DOF table in the source's order and
 * leaves exactly what DofNode, ConnEntry and ConstrainedBelow describe.
 */
module FiniteElementSpace2D {
  import opened Boundary
  import opened TriangularMesh
  import opened Numbering
  import opened Quadrature
  import opened Shape2D
  import opened PullBack2D
  import opened PullBackProperties2D
  import opened Vectors
  import opened FiniteElements2D
  import opened ConstrainedDofs2D

  /** Entries lo .. hi - 1 of s are the DOF nodes of those numbers. */
  ghost predicate Placed(m: Mesh2D, N: nat, p: int, s: seq<FENode2D>, lo: int, hi: int)
    requires m.Valid() && p > 0
  {
    && 0 <= lo <= hi <= |s| && hi <= NumDofs(m, p)
    && forall n :: lo <= n < hi ==> s[n] == DofNode(m, N, p, n)
  }

  /** Two placed runs that meet make one, when the later writes left the first run alone. */
  lemma PlacedExtend(m: Mesh2D, N: nat, p: int, s0: seq<FENode2D>, s1: seq<FENode2D>, lo: int, mid: int, hi: int)
    requires m.Valid() && p > 0
    requires Placed(m, N, p, s0, lo, mid) && Placed(m, N, p, s1, mid, hi)
    requires |s0| == |s1| && forall n :: lo <= n < mid ==> s1[n] == s0[n]
    ensures Placed(m, N, p, s1, lo, hi)
  {
  }

  // ---------------------------------------------------------------------
  // Vertices
  // ---------------------------------------------------------------------

  /** The vertex loop: DOF n < numNodes copies mesh node n, and its number is recorded when its tag is constrained. */
  method PlaceVertexDofs(m: Mesh2D, N: nat, p: int, nodes: array<FENode2D>) returns (B: seq<int>)
    requires m.Valid() && p > 0 && nodes.Length == NumDofs(m, p)
    requires forall n :: 0 <= n < m.numNodes ==> nodes[n] == DefaultNode(N)
    modifies nodes
    ensures m.numNodes <= nodes.Length
    ensures forall n :: m.numNodes <= n < nodes.Length ==> nodes[n] == old(nodes[n])
    ensures forall n :: 0 <= n < m.numNodes ==> nodes[n] == DofNode(m, N, p, n)
    ensures B == ConstrainedBelow(m, p, m.numNodes)
  {
    CountLayout(m, p);
    B := [];
    for n := 0 to m.numNodes
      invariant forall k :: m.numNodes <= k < nodes.Length ==> nodes[k] == old(nodes[k])
      invariant forall k :: 0 <= k < n ==> nodes[k] == DofNode(m, N, p, k)
      invariant forall k :: n <= k < m.numNodes ==> nodes[k] == DefaultNode(N)
      invariant B == ConstrainedBelow(m, p, n)
    {
      var v := m.meshNodes[n];
      nodes[n] := nodes[n].(x := v.x, y := v.y, bc := v.bc, isCorner := v.isCorner);
      DofNodeOfVertex(m, N, p, n);
      if nodes[n].bc.IsConstrained() {
        B := B + [n];
      }
    }
  }

  /** The copy of the mesh's element-to-node table into the first three columns of the DOF table. */
  method CopyVertexColumns(m: Mesh2D, p: int, conn: array2<int>)
    requires m.Valid() && p > 0 && conn.Length0 == m.size && conn.Length1 == RowWidth(p)
    modifies conn
    ensures forall K, j :: 0 <= K < m.size && 3 <= j < RowWidth(p) ==> conn[K, j] == old(conn[K, j])
    ensures forall K, j :: 0 <= K < m.size && 0 <= j < 3 ==> conn[K, j] == ConnEntry(m, p, K, j)
  {
    LocalLayout(p);
    for K := 0 to m.size
      invariant forall K', j :: 0 <= K' < m.size && 3 <= j < RowWidth(p) ==> conn[K', j] == old(conn[K', j])
      invariant forall K', j :: 0 <= K' < K && 0 <= j < 3 ==> conn[K', j] == ConnEntry(m, p, K', j)
    {
      for v := 0 to 3
        invariant forall K', j :: 0 <= K' < m.size && 3 <= j < RowWidth(p) ==> conn[K', j] == old(conn[K', j])
        invariant forall K', j :: 0 <= K' < K && 0 <= j < 3 ==> conn[K', j] == ConnEntry(m, p, K', j)
        invariant forall j :: 0 <= j < v ==> conn[K, j] == ConnEntry(m, p, K, j)
      {
        conn[K, v] := m.connectivity[K][v];
      }
    }
  }

  // ---------------------------------------------------------------------
  // Edges
  // ---------------------------------------------------------------------

  /** The DOFs of edge e fill the numbers from EdgeDof(m, p, e, 0) up to those of the next edge. */
  lemma EdgeBlock(m: Mesh2D, p: int, e: int)
    requires p > 0 && 0 <= e < m.numEdges
    ensures m.numNodes <= EdgeDof(m, p, e, 0)
    ensures EdgeDof(m, p, e, 0) + (p - 1) == EdgeDof(m, p, e + 1, 0) <= InteriorStart(m, p) <= NumDofs(m, p)
  {
    BlocksOrder(e, m.numEdges, p - 1);
    CountLayout(m, p);
  }

  /** The list B followed by those of the first k DOFs of edge e whose tag is constrained, in order. */
  function EdgeConstrained(m: Mesh2D, p: int, e: int, B: seq<int>, k: nat): seq<int>
    requires m.EdgesValid() && 0 <= e < m.numEdges
  {
    if k == 0 then B
    else EdgeConstrained(m, p, e, B, k - 1) + (if EdgeTag(m, e).IsConstrained() then [EdgeDof(m, p, e, k - 1)] else [])
  }

  /** Collecting an edge's constrained DOFs continues the list of constrained DOFs below the edge. */
  lemma {:induction false} EdgeConstrainedBelow(m: Mesh2D, p: int, e: int, k: nat)
    requires m.Valid() && p > 0 && 0 <= e < m.numEdges && k <= p - 1
    ensures EdgeDof(m, p, e, 0) + k <= NumDofs(m, p)
    ensures ConstrainedBelow(m, p, EdgeDof(m, p, e, 0) + k) == EdgeConstrained(m, p, e, ConstrainedBelow(m, p, EdgeDof(m, p, e, 0)), k)
  {
    EdgeBlock(m, p, e);
    if k > 0 {
      EdgeConstrainedBelow(m, p, e, k - 1);
      DofTagOfEdge(m, p, e, k - 1);
      assert EdgeDof(m, p, e, 0) + (k - 1) == EdgeDof(m, p, e, k - 1);
    }
  }

  /** The list of constrained DOFs below the next edge continues the list below edge e with e's constrained DOFs. */
  lemma EdgeConstrainedStep(m: Mesh2D, p: int, e: int)
    requires m.Valid() && p > 0 && 0 <= e < m.numEdges
    ensures EdgeDof(m, p, e + 1, 0) <= NumDofs(m, p)
    ensures ConstrainedBelow(m, p, EdgeDof(m, p, e + 1, 0)) == EdgeConstrained(m, p, e, ConstrainedBelow(m, p, EdgeDof(m, p, e, 0)), p - 1)
  {
    EdgeBlock(m, p, e);
    EdgeConstrainedBelow(m, p, e, p - 1);
  }

  /**
   * One turn of the edge loop: the p - 1 DOFs of edge e placed at
   * (1 - t) A1 + t A2, tagged with the edge's tag on a boundary edge, and
   * recorded when constrained.
   */
  method PlaceEdge(m: Mesh2D, N: nat, p: int, nodes: array<FENode2D>, e: int, B0: seq<int>) returns (B: seq<int>)
    requires m.EdgesValid() && p > 0 && 0 <= e < m.numEdges
    requires EdgeDof(m, p, e, 0) + (p - 1) <= nodes.Length
    requires forall n :: EdgeDof(m, p, e, 0) <= n < EdgeDof(m, p, e, 0) + (p - 1) ==> nodes[n] == DefaultNode(N)
    modifies nodes
    ensures forall n :: 0 <= n < nodes.Length && !(EdgeDof(m, p, e, 0) <= n < EdgeDof(m, p, e, 0) + (p - 1)) ==> nodes[n] == old(nodes[n])
    ensures forall i :: 0 <= i < p - 1 ==> nodes[EdgeDof(m, p, e, 0) + i] == EdgeNode(m, N, p, e, i)
    ensures B == EdgeConstrained(m, p, e, B0, p - 1)
  {
    var I, J := m.edgeArray[e][0], m.edgeArray[e][1];
    var A1, A2 := m.meshNodes[I], m.meshNodes[J];
    var boundary := m.edgeTypeMatrix[I][J] == 1;
    var bc := if A1.isCorner then A2.bc else A1.bc;
    var first := EdgeDof(m, p, e, 0);
    B := B0;
    for i := 0 to p - 1
      invariant forall n :: 0 <= n < nodes.Length && !(first <= n < first + (p - 1)) ==> nodes[n] == old(nodes[n])
      invariant forall k :: 0 <= k < i ==> nodes[first + k] == EdgeNode(m, N, p, e, k)
      invariant forall n :: first + i <= n < first + (p - 1) ==> nodes[n] == DefaultNode(N)
      invariant B == EdgeConstrained(m, p, e, B0, i)
    {
      assert EdgeDof(m, p, e, i) == first + i;
      B := PlaceEdgeNode(m, N, p, nodes, e, i, A1, A2, boundary, bc, B);
    }
  }

  /** One DOF of the edge loop: DOF i of edge e written over its default node and recorded when constrained. */
  method PlaceEdgeNode(m: Mesh2D, N: nat, p: int, nodes: array<FENode2D>, e: int, i: int,
                       A1: MeshNode2D, A2: MeshNode2D, boundary: bool, bc: BC, B0: seq<int>) returns (B: seq<int>)
    requires m.EdgesValid() && p > 0 && 0 <= e < m.numEdges && 0 <= i < p - 1
    requires A1 == m.meshNodes[m.edgeArray[e][0]] && A2 == m.meshNodes[m.edgeArray[e][1]]
    requires boundary <==> m.edgeTypeMatrix[m.edgeArray[e][0]][m.edgeArray[e][1]] == 1
    requires bc == if A1.isCorner then A2.bc else A1.bc
    requires 0 <= EdgeDof(m, p, e, i) < nodes.Length && nodes[EdgeDof(m, p, e, i)] == DefaultNode(N)
    modifies nodes
    ensures forall n :: 0 <= n < nodes.Length && n != EdgeDof(m, p, e, i) ==> nodes[n] == old(nodes[n])
    ensures nodes[EdgeDof(m, p, e, i)] == EdgeNode(m, N, p, e, i)
    ensures B == B0 + (if EdgeTag(m, e).IsConstrained() then [EdgeDof(m, p, e, i)] else [])
  {
    var t := EdgeParam(p, i);
    var n := EdgeDof(m, p, e, i);
    var node := nodes[n].(x := Lerp(A1.x, A2.x, t), y := Lerp(A1.y, A2.y, t));
    if boundary {
      node := node.(bc := bc);
    }
    nodes[n] := node;
    B := B0;
    if nodes[n].bc.IsConstrained() {
      B := B + [n];
    }
  }

  /**
   * The edge loop: every edge's DOFs in edge order, after the vertices.
   * (InteriorStart <= NumDofs is spelled out for the contract's own
   * well-formedness; CountLayout proves it.)
   */
  method PlaceEdgeDofs(m: Mesh2D, N: nat, p: int, nodes: array<FENode2D>, B0: seq<int>) returns (B: seq<int>)
    requires m.Valid() && p > 0 && nodes.Length == NumDofs(m, p) && InteriorStart(m, p) <= NumDofs(m, p)
    requires forall n :: m.numNodes <= n < InteriorStart(m, p) ==> nodes[n] == DefaultNode(N)
    requires B0 == ConstrainedBelow(m, p, m.numNodes)
    modifies nodes
    ensures forall n :: 0 <= n < nodes.Length && !(m.numNodes <= n < InteriorStart(m, p)) ==> nodes[n] == old(nodes[n])
    ensures Placed(m, N, p, nodes[..], m.numNodes, InteriorStart(m, p))
    ensures B == ConstrainedBelow(m, p, InteriorStart(m, p))
  {
    CountLayout(m, p);
    B := B0;
    for e := 0 to m.numEdges
      invariant m.numNodes <= EdgeDof(m, p, e, 0) <= InteriorStart(m, p)
      invariant forall n :: 0 <= n < nodes.Length && !(m.numNodes <= n < InteriorStart(m, p)) ==> nodes[n] == old(nodes[n])
      invariant Placed(m, N, p, nodes[..], m.numNodes, EdgeDof(m, p, e, 0))
      invariant forall n :: EdgeDof(m, p, e, 0) <= n < InteriorStart(m, p) ==> nodes[n] == DefaultNode(N)
      invariant B == ConstrainedBelow(m, p, EdgeDof(m, p, e, 0))
    {
      ghost var before := nodes[..];
      EdgeBlock(m, p, e);
      B := PlaceEdge(m, N, p, nodes, e, B);
      EdgeConstrainedStep(m, p, e);
      EdgeNodesAreDofNodes(m, N, p, e, nodes[..]);
      PlacedExtend(m, N, p, before, nodes[..], m.numNodes, EdgeDof(m, p, e, 0), EdgeDof(m, p, e + 1, 0));
    }
  }

  /** The nodes the edge loop writes for edge e are the DOF nodes of the edge's numbers. */
  lemma EdgeNodesAreDofNodes(m: Mesh2D, N: nat, p: int, e: int, s: seq<FENode2D>)
    requires m.Valid() && p > 0 && 0 <= e < m.numEdges && EdgeDof(m, p, e, 0) + (p - 1) <= |s|
    requires forall i :: 0 <= i < p - 1 ==> s[EdgeDof(m, p, e, 0) + i] == EdgeNode(m, N, p, e, i)
    ensures Placed(m, N, p, s, EdgeDof(m, p, e, 0), EdgeDof(m, p, e, 0) + (p - 1))
  {
    EdgeBlock(m, p, e);
    forall n | EdgeDof(m, p, e, 0) <= n < EdgeDof(m, p, e, 0) + (p - 1)
      ensures s[n] == DofNode(m, N, p, n)
    {
      var i := n - EdgeDof(m, p, e, 0);
      assert n == EdgeDof(m, p, e, i);
      DofNodeOfEdge(m, N, p, e, i);
    }
  }

  // ---------------------------------------------------------------------
  // Edge slots of the table
  // ---------------------------------------------------------------------

  /** The end of the first e slots of a row: entry 3 + e (p - 1). */
  function SlotsEnd(p: int, e: int): int
  {
    3 + Blocks(e, p - 1)
  }

  /** The innermost loop of the slot pass: slot e of row K gets the DOFs of mesh edge E in order. */
  method FillSlot(m: Mesh2D, p: int, conn: array2<int>, K: int, e: int, E: int)
    requires m.Valid() && p > 0 && conn.Length0 == m.size && conn.Length1 == RowWidth(p)
    requires 0 <= K < m.size && 0 <= e < 3 && E == SlotEdge(m, K, e)
    modifies conn
    ensures SlotsEnd(p, e) + (p - 1) <= 3 * p
    ensures forall K', j :: 0 <= K' < m.size && 0 <= j < RowWidth(p) && !(K' == K && SlotsEnd(p, e) <= j < SlotsEnd(p, e) + (p - 1)) ==>
      conn[K', j] == old(conn[K', j])
    ensures forall j :: SlotsEnd(p, e) <= j < SlotsEnd(p, e) + (p - 1) ==> conn[K, j] == ConnEntry(m, p, K, j)
  {
    var base := SlotsEnd(p, e);
    BlocksOrder(e, 3, p - 1);
    BlocksProduct(3, p - 1);
    for l := 0 to p - 1
      invariant forall K', j :: 0 <= K' < m.size && 0 <= j < RowWidth(p) && !(K' == K && base <= j < base + (p - 1)) ==>
        conn[K', j] == old(conn[K', j])
      invariant forall j :: base <= j < base + l ==> conn[K, j] == ConnEntry(m, p, K, j)
    {
      ConnEntrySlot(m, p, K, e, l);
      conn[K, base + l] := EdgeDof(m, p, E, l);
    }
  }

  /** Slots are numbered in the order the loops meet the vertex pairs: before pair (i, ...) come SlotsBefore(i) slots. */
  function SlotsBefore(i: int): int
  {
    if i <= 1 then 0 else if i == 2 then 1 else 3
  }

  /**
   * One turn of the inner slot loop: vertices i and j of element K form a
   * mesh edge, so slot e, the next one, gets that edge's DOFs.
   */
  method VisitPair(m: Mesh2D, p: int, conn: array2<int>, K: int, i: int, j: int, e: int) returns (e': int)
    requires m.Valid() && p > 0 && conn.Length0 == m.size && conn.Length1 == RowWidth(p) && 0 <= K < m.size
    requires 0 <= j < i < 3 && 0 <= e < 3 && SlotFirst(e) == i && SlotSecond(e) == j
    requires forall j' :: 3 <= j' < SlotsEnd(p, e) ==> conn[K, j'] == ConnEntry(m, p, K, j')
    modifies conn
    ensures e' == e + 1 && SlotsEnd(p, e') <= 3 * p <= RowWidth(p)
    ensures forall K', j' :: 0 <= K' < m.size && 0 <= j' < RowWidth(p) && !(K' == K && 3 <= j' < 3 * p) ==> conn[K', j'] == old(conn[K', j'])
    ensures forall j' :: 3 <= j' < SlotsEnd(p, e') ==> conn[K, j'] == ConnEntry(m, p, K, j')
  {
    LocalLayout(p);
    e' := e;
    var I, J := m.connectivity[K][i], m.connectivity[K][j];
    assert m.ElementEdge(I, J);
    if m.edgeTypeMatrix[I][J] > 0 {
      var E := m.edgeMatrix[I][J] - 1;
      assert E + 1 > 0;
      FillSlot(m, p, conn, K, e, E);
      e' := e' + 1;
    }
    assert SlotsEnd(p, e') == SlotsEnd(p, e) + (p - 1);
  }

  /**
   * The slot pass for element K: the vertex pairs (1, 0), (2, 1), (2, 0)
   * in turn, each filling the next slot with the DOFs of the mesh edge
   * the pair forms.
   */
  method FillEdgeSlots(m: Mesh2D, p: int, conn: array2<int>, K: int)
    requires m.Valid() && p > 0 && conn.Length0 == m.size && conn.Length1 == RowWidth(p) && 0 <= K < m.size
    modifies conn
    ensures 3 * p <= RowWidth(p)
    ensures forall K', j :: 0 <= K' < m.size && 0 <= j < RowWidth(p) && !(K' == K && 3 <= j < 3 * p) ==> conn[K', j] == old(conn[K', j])
    ensures forall j :: 3 <= j < 3 * p ==> conn[K, j] == ConnEntry(m, p, K, j)
  {
    LocalLayout(p);
    var e := 0;
    for i := 1 to 3
      invariant e == SlotsBefore(i)
      invariant forall K', j :: 0 <= K' < m.size && 0 <= j < RowWidth(p) && !(K' == K && 3 <= j < 3 * p) ==> conn[K', j] == old(conn[K', j])
      invariant forall j :: 3 <= j < SlotsEnd(p, e) ==> conn[K, j] == ConnEntry(m, p, K, j)
    {
      var j := i - 1;
      while j >= 0
        invariant -1 <= j < i && e == SlotsBefore(i) + (i - 1 - j)
        invariant forall K', j :: 0 <= K' < m.size && 0 <= j < RowWidth(p) && !(K' == K && 3 <= j < 3 * p) ==> conn[K', j] == old(conn[K', j])
        invariant forall j :: 3 <= j < SlotsEnd(p, e) ==> conn[K, j] == ConnEntry(m, p, K, j)
      {
        e := VisitPair(m, p, conn, K, i, j, e);
        j := j - 1;
      }
    }
    BlocksProduct(3, p - 1);
  }

  /** The slot pass over every element. */
  method FillAllEdgeSlots(m: Mesh2D, p: int, conn: array2<int>)
    requires m.Valid() && p > 0 && conn.Length0 == m.size && conn.Length1 == RowWidth(p)
    modifies conn
    ensures 3 * p <= RowWidth(p)
    ensures forall K, j :: 0 <= K < m.size && 0 <= j < RowWidth(p) && !(3 <= j < 3 * p) ==> conn[K, j] == old(conn[K, j])
    ensures forall K, j :: 0 <= K < m.size && 3 <= j < 3 * p ==> conn[K, j] == ConnEntry(m, p, K, j)
  {
    LocalLayout(p);
    for K := 0 to m.size
      invariant forall K', j :: 0 <= K' < m.size && 0 <= j < RowWidth(p) && !(K' < K && 3 <= j < 3 * p) ==> conn[K', j] == old(conn[K', j])
      invariant forall K', j :: 0 <= K' < K && 3 <= j < 3 * p ==> conn[K', j] == ConnEntry(m, p, K', j)
    {
      FillEdgeSlots(m, p, conn, K);
    }
  }

  // ---------------------------------------------------------------------
  // Interior DOFs
  // ---------------------------------------------------------------------

  /** One turn of the innermost interior loop, the node half: node (i, j) of element K, x = B t + A1, written over the default node at n. */
  method PlaceInteriorNode(m: Mesh2D, N: nat, p: int, nodes: array<FENode2D>, K: int, i: nat, j: nat,
                           A1: Point, A2: Point, A3: Point, n: int)
    requires m.Valid() && p > 0 && 0 <= K < m.size && (A1, A2, A3) == Corners(m, K)
    requires 0 <= n < nodes.Length && nodes[n] == DefaultNode(N)
    modifies nodes
    ensures forall k :: 0 <= k < nodes.Length && k != n ==> nodes[k] == old(nodes[k])
    ensures nodes[n] == InteriorNode(m, N, p, K, i, j)
  {
    var P := MapToElement(A1, A2, A3, InteriorRefPoint(p, i, j));
    nodes[n] := nodes[n].(x := P.x, y := P.y);
  }

  /** One turn of the innermost interior loop, the table half: entry l of row K gets interior DOF n = InteriorDof(m, p, K, l - 3 p). */
  method EnterInteriorDof(m: Mesh2D, p: int, conn: array2<int>, K: int, l: int, n: int)
    requires m.Valid() && p > 0 && 0 <= K < m.size && conn.Length0 == m.size && conn.Length1 == RowWidth(p)
    requires 3 * p <= l < RowWidth(p) && n == InteriorDof(m, p, K, l - 3 * p)
    modifies conn
    ensures forall K', j :: 0 <= K' < m.size && 0 <= j < RowWidth(p) && !(K' == K && j == l) ==> conn[K', j] == old(conn[K', j])
    ensures conn[K, l] == ConnEntry(m, p, K, l)
  {
    ConnEntryIsInteriorDof(m, p, K, l);
    conn[K, l] := n;
  }

  /**
   * The innermost interior loop, row i of element K: the nodes at reference
   * points ((i + 1) / p, (j + 1) / p), j < p - 2 - i, carried onto the
   * element by x = B t + A1 and numbered on from nodeIndex0, each number
   * entered in the table from entry localNodeIndex0 on.
   */
  method PlaceInteriorRow(m: Mesh2D, N: nat, p: int, nodes: array<FENode2D>, conn: array2<int>, K: int, i: nat,
                          A1: Point, A2: Point, A3: Point, nodeIndex0: int, localNodeIndex0: int)
    returns (nodeIndex: int, localNodeIndex: int)
    requires m.Valid() && p > 0 && 0 <= K < m.size && i < p - 2 && (A1, A2, A3) == Corners(m, K)
    requires conn.Length0 == m.size && conn.Length1 == RowWidth(p)
    requires nodeIndex0 == InteriorDof(m, p, K, RowOffset(p, i)) && localNodeIndex0 == 3 * p + RowOffset(p, i)
    requires 0 <= nodeIndex0 && nodeIndex0 + (p - 2 - i) <= nodes.Length
    requires forall n :: nodeIndex0 <= n < nodeIndex0 + (p - 2 - i) ==> nodes[n] == DefaultNode(N)
    modifies nodes, conn
    ensures nodeIndex == nodeIndex0 + (p - 2 - i) && localNodeIndex == localNodeIndex0 + (p - 2 - i)
    ensures forall n :: 0 <= n < nodes.Length && !(nodeIndex0 <= n < nodeIndex) ==> nodes[n] == old(nodes[n])
    ensures forall j :: 0 <= j < p - 2 - i ==> nodes[nodeIndex0 + j] == InteriorNode(m, N, p, K, i, j)
    ensures Placed(m, N, p, nodes[..], nodeIndex0, nodeIndex)
    ensures forall K', j :: 0 <= K' < m.size && 0 <= j < RowWidth(p) && !(K' == K && localNodeIndex0 <= j < localNodeIndex) ==>
      conn[K', j] == old(conn[K', j])
    ensures 0 <= localNodeIndex0 && localNodeIndex <= RowWidth(p)
    ensures forall j :: localNodeIndex0 <= j < localNodeIndex ==> conn[K, j] == ConnEntry(m, p, K, j)
  {
    RowBlock(p, i);
    nodeIndex, localNodeIndex := nodeIndex0, localNodeIndex0;
    var j := 0;
    while j < p - 2 - i
      invariant 0 <= j <= p - 2 - i
      invariant nodeIndex == nodeIndex0 + j && localNodeIndex == localNodeIndex0 + j
      invariant forall n :: 0 <= n < nodes.Length && !(nodeIndex0 <= n < nodeIndex0 + (p - 2 - i)) ==> nodes[n] == old(nodes[n])
      invariant forall k :: 0 <= k < j ==> nodes[nodeIndex0 + k] == InteriorNode(m, N, p, K, i, k)
      invariant forall n :: nodeIndex <= n < nodeIndex0 + (p - 2 - i) ==> nodes[n] == DefaultNode(N)
      invariant forall K', j :: 0 <= K' < m.size && 0 <= j < RowWidth(p) && !(K' == K && localNodeIndex0 <= j < localNodeIndex) ==>
        conn[K', j] == old(conn[K', j])
      invariant forall j :: localNodeIndex0 <= j < localNodeIndex ==> conn[K, j] == ConnEntry(m, p, K, j)
    {
      PlaceInteriorNode(m, N, p, nodes, K, i, j, A1, A2, A3, nodeIndex);
      assert nodeIndex == InteriorDof(m, p, K, localNodeIndex - 3 * p);
      EnterInteriorDof(m, p, conn, K, localNodeIndex, nodeIndex);
      nodeIndex := nodeIndex + 1;
      localNodeIndex := localNodeIndex + 1;
      j := j + 1;
    }
    InteriorRowPlaced(m, N, p, K, i, nodeIndex0, nodes[..]);
  }

  /** The nodes the interior loop writes for row i of element K, from DOF lo on, are the DOF nodes of their numbers. */
  lemma InteriorRowPlaced(m: Mesh2D, N: nat, p: int, K: int, i: nat, lo: int, s: seq<FENode2D>)
    requires m.Valid() && p > 0 && 0 <= K < m.size && i < p - 2
    requires lo == InteriorDof(m, p, K, RowOffset(p, i)) && 0 <= lo && lo + (p - 2 - i) <= |s|
    requires forall j :: 0 <= j < p - 2 - i ==> s[lo + j] == InteriorNode(m, N, p, K, i, j)
    ensures Placed(m, N, p, s, lo, lo + (p - 2 - i))
  {
    RowBlock(p, i);
    InteriorBlock(m, p, K);
    forall n | lo <= n < lo + (p - 2 - i)
      ensures s[n] == DofNode(m, N, p, n)
    {
      var j := n - lo;
      assert n == InteriorDof(m, p, K, RowOffset(p, i) + j);
      assert s[n] == InteriorNode(m, N, p, K, i, j);
      DofNodeOfInterior(m, N, p, K, i, j);
    }
  }

  /**
   * The interior loop for element K: row after row of its interior
   * sub-grid, numbered on from nodeIndex0 = InteriorDof(m, p, K, 0) and
   * entered in the table from entry 3 p on.
   */
  method PlaceElementInterior(m: Mesh2D, N: nat, p: int, nodes: array<FENode2D>, conn: array2<int>, K: int, nodeIndex0: int)
    returns (nodeIndex: int)
    requires m.Valid() && p > 0 && 0 <= K < m.size
    requires nodes.Length == NumDofs(m, p) && conn.Length0 == m.size && conn.Length1 == RowWidth(p)
    requires nodeIndex0 == InteriorDof(m, p, K, 0)
    requires nodeIndex0 + InteriorCount(p) <= nodes.Length
    requires forall n :: nodeIndex0 <= n < nodeIndex0 + InteriorCount(p) ==> nodes[n] == DefaultNode(N)
    modifies nodes, conn
    ensures nodeIndex == nodeIndex0 + InteriorCount(p)
    ensures forall n :: 0 <= n < nodes.Length && !(nodeIndex0 <= n < nodeIndex) ==> nodes[n] == old(nodes[n])
    ensures Placed(m, N, p, nodes[..], nodeIndex0, nodeIndex)
    ensures forall K', j :: 0 <= K' < m.size && 0 <= j < RowWidth(p) && !(K' == K && 3 * p <= j) ==> conn[K', j] == old(conn[K', j])
    ensures forall j :: 3 * p <= j < RowWidth(p) ==> conn[K, j] == ConnEntry(m, p, K, j)
  {
    var A1, A2, A3 := Position(m.Node(K, 0)), Position(m.Node(K, 1)), Position(m.Node(K, 2));
    nodeIndex := nodeIndex0;
    var localNodeIndex := 3 * p;
    var i := 0;
    while i < p - 2
      invariant 0 <= i && (i <= p - 2 || i == 0)
      invariant 0 <= RowOffset(p, i) <= InteriorCount(p)
      invariant nodeIndex == nodeIndex0 + RowOffset(p, i) && localNodeIndex == 3 * p + RowOffset(p, i)
      invariant forall n :: 0 <= n < nodes.Length && !(nodeIndex0 <= n < nodeIndex) ==> nodes[n] == old(nodes[n])
      invariant Placed(m, N, p, nodes[..], nodeIndex0, nodeIndex)
      invariant forall n :: nodeIndex <= n < nodeIndex0 + InteriorCount(p) ==> nodes[n] == DefaultNode(N)
      invariant forall K', j :: 0 <= K' < m.size && 0 <= j < RowWidth(p) && !(K' == K && 3 * p <= j < localNodeIndex) ==>
        conn[K', j] == old(conn[K', j])
      invariant forall j :: 3 * p <= j < localNodeIndex ==> conn[K, j] == ConnEntry(m, p, K, j)
    {
      RowBlock(p, i);
      ghost var before, rowStart := nodes[..], nodeIndex;
      nodeIndex, localNodeIndex := PlaceInteriorRow(m, N, p, nodes, conn, K, i, A1, A2, A3, nodeIndex, localNodeIndex);
      PlacedExtend(m, N, p, before, nodes[..], nodeIndex0, rowStart, nodeIndex);
      i := i + 1;
    }
  }

  /**
   * The interior loop over every element: element K's interior DOFs take
   * the numbers from InteriorDof(m, p, K, 0) on, after all edge DOFs, and
   * fill entries 3 p on of row K of the table.
   */
  method PlaceInteriorDofs(m: Mesh2D, N: nat, p: int, nodes: array<FENode2D>, conn: array2<int>)
    requires m.Valid() && p > 0 && nodes.Length == NumDofs(m, p) && conn.Length0 == m.size && conn.Length1 == RowWidth(p)
    requires InteriorStart(m, p) <= NumDofs(m, p)
    requires forall n :: InteriorStart(m, p) <= n < NumDofs(m, p) ==> nodes[n] == DefaultNode(N)
    modifies nodes, conn
    ensures forall n :: 0 <= n < InteriorStart(m, p) ==> nodes[n] == old(nodes[n])
    ensures Placed(m, N, p, nodes[..], InteriorStart(m, p), NumDofs(m, p))
    ensures forall K, j :: 0 <= K < m.size && 0 <= j < RowWidth(p) && j < 3 * p ==> conn[K, j] == old(conn[K, j])
    ensures forall K, j :: 0 <= K < m.size && 3 * p <= j < RowWidth(p) ==> conn[K, j] == ConnEntry(m, p, K, j)
  {
    var T := InteriorCount(p);
    BlocksProduct(m.numEdges, p - 1);
    var nodeIndex := m.numNodes + m.numEdges * (p - 1);
    for K := 0 to m.size
      invariant nodeIndex == InteriorDof(m, p, K, 0) <= NumDofs(m, p)
      invariant forall n :: 0 <= n < InteriorStart(m, p) ==> nodes[n] == old(nodes[n])
      invariant Placed(m, N, p, nodes[..], InteriorStart(m, p), nodeIndex)
      invariant forall n :: nodeIndex <= n < NumDofs(m, p) ==> nodes[n] == DefaultNode(N)
      invariant forall K', j :: 0 <= K' < m.size && 0 <= j < RowWidth(p) && !(K' < K && 3 * p <= j) ==> conn[K', j] == old(conn[K', j])
      invariant forall K', j :: 0 <= K' < K && 3 * p <= j < RowWidth(p) ==> conn[K', j] == ConnEntry(m, p, K', j)
    {
      BlocksOrder(K, m.size, T);
      assert InteriorDof(m, p, K + 1, 0) == nodeIndex + T;
      ghost var before, elementStart := nodes[..], nodeIndex;
      nodeIndex := PlaceElementInterior(m, N, p, nodes, conn, K, nodeIndex);
      PlacedExtend(m, N, p, before, nodes[..], InteriorStart(m, p), elementStart, nodeIndex);
    }
  }
}
