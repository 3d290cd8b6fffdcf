/**
 * The two-dimensional finite-element space (Meshing/2D/FEM2D.h): Lagrange
 * elements of degree p on a triangular Mesh2D, with N unknowns per node.
 * The degrees of freedom are numbered vertices first (the mesh's own node
 * numbers), then p - 1 per mesh edge in edge order, then (p - 1)(p - 2) / 2
 * inside each element in element order. Row K of the element-to-DOF table
 * lists the element's three vertices, then the DOFs of its edges in the
 * local order (1, 0), (2, 1), (2, 0), then its interior DOFs. The DOFs
 * whose tag is constrained are collected in increasing order.
 */
module FiniteElements2D {
  import opened Boundary
  import opened TriangularMesh
  import opened Numbering
  import opened Quadrature
  import opened Shape2D
  import opened PullBack2D
  import opened PullBackProperties2D
  import opened Vectors

  /** A finite-element node: position, the N unknowns, boundary tag and corner flag (FENode2D in Meshing/Nodes.h). */
  datatype FENode2D = FENode2D(x: real, y: real, vars: seq<real>, bc: BC, isCorner: bool)

  /** A node that has not been written yet: every field at its default. */
  function DefaultNode(N: nat): FENode2D
  {
    FENode2D(0.0, 0.0, Zeros(N), Interior, false)
  }

  // ---------------------------------------------------------------------
  // Counts and the local layout
  // ---------------------------------------------------------------------

  /**
   * The number of DOFs: the vertices, p - 1 per edge and InteriorCount(p)
   * per element. NumDofsFormula shows it equals the constructor's
   * initialiser numNodes + (p - 1) numEdges + (p - 1)(p - 2) size / 2.
   */
  function NumDofs(m: Mesh2D, p: int): int
  {
    InteriorStart(m, p) + Blocks(m.size, InteriorCount(p))
  }

  /** The width of a table row: 3 vertices, 3 (p - 1) edge DOFs and the interior DOFs. */
  function RowWidth(p: int): int
  {
    3 * p + InteriorCount(p)
  }

  /** The DOFs strictly inside one element: the rows of the interior sub-grid, p - 2 of them. */
  function InteriorCount(p: int): (T: int)
    ensures T >= 0
  {
    if p < 2 then 0 else RowOffsetOrder(p, 0, p - 2); RowOffset(p, p - 2)
  }

  /** The first interior DOF: all vertex and edge DOFs come before it. */
  function InteriorStart(m: Mesh2D, p: int): int
  {
    m.numNodes + Blocks(m.numEdges, p - 1)
  }

  /** DOF i of edge e (i < p - 1): numNodes + e (p - 1) + i. */
  function EdgeDof(m: Mesh2D, p: int, e: int, i: int): int
  {
    m.numNodes + Blocks(e, p - 1) + i
  }

  /** Interior DOF q of element K (q < InteriorCount(p)): InteriorStart + K InteriorCount(p) + q. */
  function InteriorDof(m: Mesh2D, p: int, K: int, q: int): int
  {
    InteriorStart(m, p) + Blocks(K, InteriorCount(p)) + q
  }

  /**
   * The local layout in closed form: InteriorCount(p) is (p - 1)(p - 2) / 2,
   * with the division exact, and RowWidth(p) is (p + 2)(p + 1) / 2, the
   * number of shape functions of degree p.
   */
  lemma LocalLayout(p: int)
    requires p > 0
    ensures 0 <= InteriorCount(p) && 2 * InteriorCount(p) == (p - 1) * (p - 2)
    ensures 2 * RowWidth(p) == (p + 2) * (p + 1)
  {
    if p >= 2 {
      RowOffsetOrder(p, 0, p - 2);
      RowOffsetClosed(p, p - 2);
      assert (p - 2) * (2 * p - 3 - (p - 2)) == (p - 1) * (p - 2);
    }
    assert (p + 2) * (p + 1) == 6 * p + (p - 1) * (p - 2);
  }

  /** The vertex, edge and interior DOFs follow each other: numNodes <= InteriorStart <= NumDofs. */
  lemma CountLayout(m: Mesh2D, p: int)
    requires p > 0
    ensures m.numNodes <= InteriorStart(m, p) <= NumDofs(m, p)
    ensures 0 <= InteriorCount(p)
  {
    LocalLayout(p);
  }

  /** The DOF count and the row width are the constructor's initialisers. */
  lemma NumDofsFormula(m: Mesh2D, p: int)
    requires p > 0
    ensures NumDofs(m, p) == m.numNodes + (p - 1) * m.numEdges + (p - 1) * (p - 2) * m.size / 2
    ensures RowWidth(p) == (p + 2) * (p + 1) / 2
  {
    LocalLayout(p);
    var T := InteriorCount(p);
    BlocksProduct(m.numEdges, p - 1);
    BlocksProduct(m.size, T);
    assert (p - 1) * (p - 2) * m.size == 2 * (m.size * T);
    assert (p - 1) * m.numEdges == m.numEdges * (p - 1);
  }

  // ---------------------------------------------------------------------
  // The interior sub-grid of an element
  // ---------------------------------------------------------------------

  /**
   * The local position of row i of the interior sub-grid: row i' holds the
   * p - 2 - i' nodes at reference points ((i' + 1) / p, (j + 1) / p).
   */
  function RowOffset(p: int, i: nat): int
  {
    if i == 0 then 0 else RowOffset(p, i - 1) + (p - 2 - (i - 1))
  }

  /** Twice the offset of row i is i (2 p - 3 - i). */
  lemma {:induction false} RowOffsetClosed(p: int, i: nat)
    ensures 2 * RowOffset(p, i) == i * (2 * p - 3 - i)
  {
    if i > 0 {
      RowOffsetClosed(p, i - 1);
      assert i * (2 * p - 3 - i) == (i - 1) * (2 * p - 3 - (i - 1)) + 2 * (p - 2 - (i - 1));
    }
  }

  /** The rows are laid out one after the other: every node of row i comes before every node of a later row. */
  lemma {:induction false} RowOffsetOrder(p: int, i: nat, i': nat)
    requires i <= i' <= p - 2
    ensures i < i' ==> RowOffset(p, i) + (p - 2 - i) <= RowOffset(p, i')
    ensures RowOffset(p, i) <= RowOffset(p, i')
    decreases i' - i
  {
    if i < i' {
      RowOffsetOrder(p, i, i' - 1);
    }
  }

  /** The row and column of the q-th interior node, counting from row i. */
  function InteriorPosFrom(p: int, i: nat, q: nat): (nat, nat)
    decreases q
  {
    var len := p - 2 - i;
    if len <= 0 || q < len then (i, q) else InteriorPosFrom(p, i + 1, q - len)
  }

  /** The row and column of the q-th interior node of an element. */
  function InteriorPos(p: int, q: nat): (nat, nat)
  {
    InteriorPosFrom(p, 0, q)
  }

  /** InteriorPos undoes the local numbering RowOffset(p, i) + j of the interior sub-grid. */
  lemma {:induction false} InteriorPosFromOf(p: int, i0: nat, i: nat, j: nat)
    requires i0 <= i < p - 2 && j < p - 2 - i
    ensures RowOffset(p, i) - RowOffset(p, i0) + j >= 0
    ensures InteriorPosFrom(p, i0, RowOffset(p, i) - RowOffset(p, i0) + j) == (i, j)
    decreases i - i0
  {
    RowOffsetOrder(p, i0, i);
    if i0 < i {
      RowOffsetOrder(p, i0 + 1, i);
      assert RowOffset(p, i0 + 1) == RowOffset(p, i0) + (p - 2 - i0);
      InteriorPosFromOf(p, i0 + 1, i, j);
    }
  }

  /** The q-th interior node of an element sits in row i, column j exactly when q = RowOffset(p, i) + j. */
  lemma InteriorPosOf(p: int, i: nat, j: nat)
    requires i < p - 2 && j < p - 2 - i
    ensures 0 <= RowOffset(p, i) + j < InteriorCount(p)
    ensures InteriorPos(p, RowOffset(p, i) + j) == (i, j)
  {
    InteriorPosFromOf(p, 0, i, j);
    RowOffsetOrder(p, i + 1, p - 2);
  }

  // ---------------------------------------------------------------------
  // The element-to-DOF table as a function
  // ---------------------------------------------------------------------

  /** Local edge slot s joins local vertices SlotFirst(s) and SlotSecond(s): (1, 0), (2, 1), (2, 0). */
  function SlotFirst(s: int): int
  {
    if s == 0 then 1 else 2
  }

  function SlotSecond(s: int): int
  {
    if s == 1 then 1 else 0
  }

  /** The mesh edge (0-based) under slot s of element K, read from the edge-id matrix. */
  function SlotEdge(m: Mesh2D, K: int, s: int): (E: int)
    requires m.Valid() && 0 <= K < m.size && 0 <= s < 3
    ensures 0 <= E < m.numEdges
  {
    var I, J := m.connectivity[K][SlotFirst(s)], m.connectivity[K][SlotSecond(s)];
    assert m.ElementEdge(I, J);
    m.edgeMatrix[I][J] - 1
  }

  /** The edge slot of row entry j (3 <= j < 3 p): entries 3 + s (p - 1) .. 3 + s (p - 1) + p - 2 form slot s. */
  function SlotOf(p: int, j: int): int
    requires p > 1
  {
    BlockOf(j - 3, p - 1)
  }

  /** The place of row entry j inside its edge slot. */
  function SlotLane(p: int, j: int): int
    requires p > 1
  {
    j - 3 - Blocks(SlotOf(p, j), p - 1)
  }

  /** Every entry between the vertices and the interior lies in one of the three slots, at a place below p - 1. */
  lemma SlotIndex(p: int, j: int)
    requires 3 <= j < 3 * p
    ensures p > 1 && 0 <= SlotOf(p, j) < 3 && 0 <= SlotLane(p, j) < p - 1
    ensures j == 3 + Blocks(SlotOf(p, j), p - 1) + SlotLane(p, j)
  {
    BlocksProduct(3, p - 1);
    BlockOfBound(j - 3, 3, p - 1);
  }

  /**
   * Entry j of row K of the table: a vertex of the element, DOF l of the
   * mesh edge under slot s for j = 3 + s (p - 1) + l, or the element's own
   * interior DOFs, which follow each other in local order.
   */
  function ConnEntry(m: Mesh2D, p: int, K: int, j: int): int
    requires m.Valid() && p > 0 && 0 <= K < m.size && 0 <= j < RowWidth(p)
  {
    if j < 3 then m.connectivity[K][j]
    else if j < 3 * p then
      SlotIndex(p, j);
      EdgeDof(m, p, SlotEdge(m, K, SlotOf(p, j)), SlotLane(p, j))
    else InteriorDof(m, p, K, j - 3 * p)
  }

  /** Edge DOFs come after the vertices and before the interior DOFs. */
  lemma EdgeDofRange(m: Mesh2D, p: int, E: int, l: int)
    requires p > 1 && 0 <= E < m.numEdges && 0 <= l < p - 1
    ensures m.numNodes <= EdgeDof(m, p, E, l) < InteriorStart(m, p)
  {
    BlocksOrder(E, m.numEdges, p - 1);
  }

  /** Interior DOFs come after the edge DOFs and before the DOF count. */
  lemma InteriorDofRange(m: Mesh2D, p: int, K: int, q: int)
    requires p > 0 && 0 <= K < m.size && 0 <= q < InteriorCount(p)
    ensures InteriorStart(m, p) <= InteriorDof(m, p, K, q) < NumDofs(m, p)
  {
    BlocksOrder(K, m.size, InteriorCount(p));
  }

  /** The interior DOFs of element K fill the numbers from InteriorDof(m, p, K, 0) up to those of the next element. */
  lemma InteriorBlock(m: Mesh2D, p: int, K: int)
    requires p > 0 && 0 <= K < m.size
    ensures InteriorStart(m, p) <= InteriorDof(m, p, K, 0)
    ensures InteriorDof(m, p, K, 0) + InteriorCount(p) == InteriorDof(m, p, K + 1, 0) <= NumDofs(m, p)
  {
    BlocksOrder(K, m.size, InteriorCount(p));
  }

  /** Row i of the interior sub-grid fills the local numbers from RowOffset(p, i) up to those of the next row. */
  lemma RowBlock(p: int, i: nat)
    requires i < p - 2
    ensures 0 <= RowOffset(p, i)
    ensures RowOffset(p, i) + (p - 2 - i) == RowOffset(p, i + 1) <= InteriorCount(p)
  {
    RowOffsetOrder(p, 0, i);
    RowOffsetOrder(p, i + 1, p - 2);
  }

  /** Entries 3 .. 3 p - 1 of a row are edge DOFs: slot SlotOf(p, j), place SlotLane(p, j). */
  lemma ConnEntryIsEdgeDof(m: Mesh2D, p: int, K: int, j: int)
    requires m.Valid() && p > 0 && 0 <= K < m.size && 3 <= j < 3 * p
    ensures p > 1 && 0 <= SlotOf(p, j) < 3 && 0 <= SlotLane(p, j) < p - 1
    ensures j < RowWidth(p)
    ensures ConnEntry(m, p, K, j) == EdgeDof(m, p, SlotEdge(m, K, SlotOf(p, j)), SlotLane(p, j))
  {
    LocalLayout(p);
    SlotIndex(p, j);
  }

  /** Entries from 3 p on are the element's interior DOFs, in local order. */
  lemma ConnEntryIsInteriorDof(m: Mesh2D, p: int, K: int, j: int)
    requires m.Valid() && p > 0 && 0 <= K < m.size && 3 * p <= j < RowWidth(p)
    ensures 0 <= j - 3 * p < InteriorCount(p)
    ensures ConnEntry(m, p, K, j) == InteriorDof(m, p, K, j - 3 * p)
  {
  }

  /** Every entry of the table names one of the space's DOFs. */
  lemma ConnEntryRange(m: Mesh2D, p: int, K: int, j: int)
    requires m.Valid() && p > 0 && 0 <= K < m.size && 0 <= j < RowWidth(p)
    ensures 0 <= ConnEntry(m, p, K, j) < NumDofs(m, p)
  {
    CountLayout(m, p);
    if j < 3 {
    } else if j < 3 * p {
      ConnEntryIsEdgeDof(m, p, K, j);
      EdgeDofRange(m, p, SlotEdge(m, K, SlotOf(p, j)), SlotLane(p, j));
    } else {
      ConnEntryIsInteriorDof(m, p, K, j);
      InteriorDofRange(m, p, K, j - 3 * p);
    }
  }

  /**
   * The DOFs in edge slot s of element K, at entries 3 + s (p - 1) + l, are
   * the DOFs of a mesh edge whose end points are the slot's two vertices, in
   * slot order l = 0 .. p - 2.
   */
  lemma ConnEntrySlot(m: Mesh2D, p: int, K: int, s: int, l: int)
    requires m.Valid() && p > 1 && 0 <= K < m.size && 0 <= s < 3 && 0 <= l < p - 1
    ensures Blocks(s, p - 1) == s * (p - 1)
    ensures 3 <= 3 + Blocks(s, p - 1) + l < 3 * p
    ensures var E := SlotEdge(m, K, s);
      && ConnEntry(m, p, K, 3 + Blocks(s, p - 1) + l) == EdgeDof(m, p, E, l)
      && SameEnds(m.edgeArray[E][0], m.edgeArray[E][1], m.connectivity[K][SlotFirst(s)], m.connectivity[K][SlotSecond(s)])
  {
    BlocksProduct(s, p - 1);
    BlocksOrder(s, 3, p - 1);
    BlocksProduct(3, p - 1);
    BlockOfBlocks(s, p - 1, l);
    var I, J := m.connectivity[K][SlotFirst(s)], m.connectivity[K][SlotSecond(s)];
    assert m.ElementEdge(I, J);
  }

  /** Interior DOFs belong to one element only: two interior table entries agree only at the same element and local index. */
  lemma ConnEntryInteriorOwned(m: Mesh2D, p: int, K: int, j: int, K': int, j': int)
    requires m.Valid() && p > 0 && 0 <= K < m.size && 0 <= K' < m.size
    requires 3 * p <= j < RowWidth(p) && 3 * p <= j' < RowWidth(p)
    requires ConnEntry(m, p, K, j) == ConnEntry(m, p, K', j')
    ensures K == K' && j == j'
  {
    var T := InteriorCount(p);
    BlockOfBlocks(K, T, j - 3 * p);
    BlockOfBlocks(K', T, j' - 3 * p);
    assert Blocks(K, T) + (j - 3 * p) == Blocks(K', T) + (j' - 3 * p);
  }

  /** The three vertex entries of a row are the mesh element's vertices, and no entry past them names a vertex. */
  lemma ConnEntryVertices(m: Mesh2D, p: int, K: int, j: int)
    requires m.Valid() && p > 0 && 0 <= K < m.size && 0 <= j < RowWidth(p)
    ensures j < 3 ==> ConnEntry(m, p, K, j) == m.connectivity[K][j]
    ensures j >= 3 ==> ConnEntry(m, p, K, j) >= m.numNodes
  {
    if 3 <= j < 3 * p {
      ConnEntryIsEdgeDof(m, p, K, j);
      EdgeDofRange(m, p, SlotEdge(m, K, SlotOf(p, j)), SlotLane(p, j));
    } else if j >= 3 * p {
      ConnEntryIsInteriorDof(m, p, K, j);
      InteriorDofRange(m, p, K, j - 3 * p);
      CountLayout(m, p);
    }
  }

  // ---------------------------------------------------------------------
  // The DOF nodes as a function of their numbers
  // ---------------------------------------------------------------------

  /** A vertex DOF copies the position, tag and corner flag of its mesh node. */
  function VertexNode(v: MeshNode2D, N: nat): FENode2D
  {
    FENode2D(v.x, v.y, Zeros(N), v.bc, v.isCorner)
  }

  /** The parameter t = (i + 1) / p of DOF i along its edge. */
  function EdgeParam(p: int, i: int): real
    requires p > 0
  {
    (i as real + 1.0) / p as real
  }

  /** The coordinate a fraction t of the way from a to b: (1 - t) a + t b. */
  function Lerp(a: real, b: real, t: real): real
  {
    (1.0 - t) * a + t * b
  }

  /**
   * The tag edge e hands to its DOFs: on a boundary edge (incidence count 1)
   * the tag of its first end point, or of its second when the first is a
   * corner; Interior on any other edge.
   */
  function EdgeTag(m: Mesh2D, e: int): BC
    requires m.EdgesValid() && 0 <= e < m.numEdges
  {
    var I, J := m.edgeArray[e][0], m.edgeArray[e][1];
    if m.edgeTypeMatrix[I][J] == 1 then
      if m.meshNodes[I].isCorner then m.meshNodes[J].bc else m.meshNodes[I].bc
    else Interior
  }

  /** DOF i of edge e: the point (1 - t) A1 + t A2 with t = (i + 1) / p, tagged by EdgeTag. */
  function EdgeNode(m: Mesh2D, N: nat, p: int, e: int, i: int): FENode2D
    requires m.EdgesValid() && p > 0 && 0 <= e < m.numEdges
  {
    var A1, A2 := m.meshNodes[m.edgeArray[e][0]], m.meshNodes[m.edgeArray[e][1]];
    var t := EdgeParam(p, i);
    FENode2D(Lerp(A1.x, A2.x, t), Lerp(A1.y, A2.y, t), Zeros(N), EdgeTag(m, e), false)
  }

  /** The reference point ((i + 1) / p, (j + 1) / p) of interior node (i, j). */
  function InteriorRefPoint(p: int, i: int, j: int): Point
    requires p > 0
  {
    Point((i as real + 1.0) / p as real, (j as real + 1.0) / p as real)
  }

  /** The vertices of element K as points. */
  function Corners(m: Mesh2D, K: int): (Point, Point, Point)
    requires m.Valid() && 0 <= K < m.size
  {
    (Position(m.Node(K, 0)), Position(m.Node(K, 1)), Position(m.Node(K, 2)))
  }

  /** Interior node (i, j) of element K: its reference point carried onto the element by x = B t + A1. */
  function InteriorNode(m: Mesh2D, N: nat, p: int, K: int, i: int, j: int): FENode2D
    requires m.Valid() && p > 0 && 0 <= K < m.size
  {
    var (A1, A2, A3) := Corners(m, K);
    var P := MapToElement(A1, A2, A3, InteriorRefPoint(p, i, j));
    FENode2D(P.x, P.y, Zeros(N), Interior, false)
  }

  /** The edge that edge DOF n belongs to: (n - numNodes) / (p - 1). */
  function EdgeOfDof(m: Mesh2D, p: int, n: int): int
    requires p > 1
  {
    BlockOf(n - m.numNodes, p - 1)
  }

  /** The place of edge DOF n along its edge: (n - numNodes) % (p - 1). */
  function EdgeLaneOfDof(m: Mesh2D, p: int, n: int): int
    requires p > 1
  {
    n - EdgeDof(m, p, EdgeOfDof(m, p, n), 0)
  }

  /** The element that interior DOF n belongs to. */
  function ElementOfDof(m: Mesh2D, p: int, n: int): int
    requires InteriorCount(p) > 0
  {
    BlockOf(n - InteriorStart(m, p), InteriorCount(p))
  }

  /** The local number of interior DOF n inside its element. */
  function LocalOfDof(m: Mesh2D, p: int, n: int): int
    requires InteriorCount(p) > 0
  {
    n - InteriorDof(m, p, ElementOfDof(m, p, n), 0)
  }

  /** A number between the vertices and the interior DOFs is DOF EdgeLaneOfDof of edge EdgeOfDof. */
  lemma EdgeDofIndex(m: Mesh2D, p: int, n: int)
    requires p > 0 && m.numNodes <= n < InteriorStart(m, p)
    ensures p > 1 && 0 <= EdgeOfDof(m, p, n) < m.numEdges && 0 <= EdgeLaneOfDof(m, p, n) < p - 1
    ensures n == EdgeDof(m, p, EdgeOfDof(m, p, n), EdgeLaneOfDof(m, p, n))
  {
    if p == 1 {
      BlocksProduct(m.numEdges, 0);
      assert false;
    }
    BlockOfBound(n - m.numNodes, m.numEdges, p - 1);
  }

  /** A number from InteriorStart on is interior DOF LocalOfDof of element ElementOfDof. */
  lemma InteriorDofIndex(m: Mesh2D, p: int, n: int)
    requires p > 0 && InteriorStart(m, p) <= n < NumDofs(m, p)
    ensures InteriorCount(p) > 0
    ensures 0 <= ElementOfDof(m, p, n) < m.size && 0 <= LocalOfDof(m, p, n) < InteriorCount(p)
    ensures n == InteriorDof(m, p, ElementOfDof(m, p, n), LocalOfDof(m, p, n))
  {
    LocalLayout(p);
    var T := InteriorCount(p);
    if T == 0 {
      BlocksProduct(m.size, 0);
      assert false;
    }
    BlockOfBound(n - InteriorStart(m, p), m.size, T);
  }

  /** DOF n's node as the constructor leaves it: a vertex, an edge or an interior node, with every unknown zero. */
  function DofNode(m: Mesh2D, N: nat, p: int, n: int): FENode2D
    requires m.Valid() && p > 0 && 0 <= n < NumDofs(m, p)
  {
    if n < m.numNodes then VertexNode(m.meshNodes[n], N)
    else if n < InteriorStart(m, p) then
      EdgeDofIndex(m, p, n);
      EdgeNode(m, N, p, EdgeOfDof(m, p, n), EdgeLaneOfDof(m, p, n))
    else
      InteriorDofIndex(m, p, n);
      var (i, j) := InteriorPos(p, LocalOfDof(m, p, n));
      InteriorNode(m, N, p, ElementOfDof(m, p, n), i, j)
  }

  /** The node of a vertex DOF is its mesh node's copy. */
  lemma DofNodeOfVertex(m: Mesh2D, N: nat, p: int, n: int)
    requires m.Valid() && p > 0 && 0 <= n < m.numNodes
    ensures n < NumDofs(m, p)
    ensures DofNode(m, N, p, n) == VertexNode(m.meshNodes[n], N)
  {
    CountLayout(m, p);
  }

  /** The node of DOF i of edge e. */
  lemma DofNodeOfEdge(m: Mesh2D, N: nat, p: int, e: int, i: int)
    requires m.Valid() && p > 1 && 0 <= e < m.numEdges && 0 <= i < p - 1
    ensures m.numNodes <= EdgeDof(m, p, e, i) < InteriorStart(m, p) <= NumDofs(m, p)
    ensures DofNode(m, N, p, EdgeDof(m, p, e, i)) == EdgeNode(m, N, p, e, i)
  {
    EdgeDofRange(m, p, e, i);
    CountLayout(m, p);
    BlockOfBlocks(e, p - 1, i);
    assert EdgeDof(m, p, e, i) - m.numNodes == Blocks(e, p - 1) + i;
  }

  /** The node of interior DOF (i, j) of element K, which has local number RowOffset(p, i) + j. */
  lemma DofNodeOfInterior(m: Mesh2D, N: nat, p: int, K: int, i: nat, j: nat)
    requires m.Valid() && p > 0 && 0 <= K < m.size && i < p - 2 && j < p - 2 - i
    ensures 0 <= RowOffset(p, i) + j < InteriorCount(p)
    ensures var n := InteriorDof(m, p, K, RowOffset(p, i) + j);
      InteriorStart(m, p) <= n < NumDofs(m, p) && DofNode(m, N, p, n) == InteriorNode(m, N, p, K, i, j)
  {
    var q := RowOffset(p, i) + j;
    InteriorPosOf(p, i, j);
    InteriorDofRange(m, p, K, q);
    CountLayout(m, p);
    var n := InteriorDof(m, p, K, q);
    BlockOfBlocks(K, InteriorCount(p), q);
    assert n - InteriorStart(m, p) == Blocks(K, InteriorCount(p)) + q;
    assert ElementOfDof(m, p, n) == K && LocalOfDof(m, p, n) == q;
    assert !(n < m.numNodes) && !(n < InteriorStart(m, p));
  }

  // ---------------------------------------------------------------------
  // Where the DOFs sit and which are constrained
  // ---------------------------------------------------------------------

  /**
   * The p - 1 DOFs of an edge divide it into p equal parts: DOF i sits at
   * A1 + (i + 1) (A2 - A1) / p, strictly between the end points.
   */
  lemma EdgeNodesEquallySpaced(m: Mesh2D, N: nat, p: int, e: int, i: int)
    requires m.Valid() && p > 1 && 0 <= e < m.numEdges && 0 <= i < p - 1
    ensures 0.0 < EdgeParam(p, i) < 1.0
    ensures var A1, A2 := m.meshNodes[m.edgeArray[e][0]], m.meshNodes[m.edgeArray[e][1]];
      && EdgeNode(m, N, p, e, i).x == A1.x + (i as real + 1.0) * ((A2.x - A1.x) / p as real)
      && EdgeNode(m, N, p, e, i).y == A1.y + (i as real + 1.0) * ((A2.y - A1.y) / p as real)
  {
    var A1, A2 := m.meshNodes[m.edgeArray[e][0]], m.meshNodes[m.edgeArray[e][1]];
    var t, P := EdgeParam(p, i), p as real;
    assert t * P == i as real + 1.0;
    assert (1.0 - t) * A1.x + t * A2.x == A1.x + t * (A2.x - A1.x);
    assert (1.0 - t) * A1.y + t * A2.y == A1.y + t * (A2.y - A1.y);
    assert t * (A2.x - A1.x) == (i as real + 1.0) * ((A2.x - A1.x) / P);
    assert t * (A2.y - A1.y) == (i as real + 1.0) * ((A2.y - A1.y) / P);
  }

  /**
   * Interior nodes lie strictly inside the reference triangle before the
   * map, and on a non-degenerate element the inverse map brings the node
   * back to its reference point.
   */
  lemma InteriorNodeInside(m: Mesh2D, N: nat, p: int, K: int, i: nat, j: nat)
    requires m.Valid() && p > 0 && 0 <= K < m.size && i < p - 2 && j < p - 2 - i
    ensures var t := InteriorRefPoint(p, i, j); 0.0 < t.x && 0.0 < t.y && t.x + t.y < 1.0
    ensures var (A1, A2, A3) := Corners(m, K); var node := InteriorNode(m, N, p, K, i, j);
      Jacobian(A1, A2, A3) != 0.0 ==> ToReference(A1, A2, A3, Point(node.x, node.y)) == InteriorRefPoint(p, i, j)
  {
    var P := p as real;
    assert (i as real + 1.0) / P + (j as real + 1.0) / P == (i as real + j as real + 2.0) / P;
    var (A1, A2, A3) := Corners(m, K);
    if Jacobian(A1, A2, A3) != 0.0 {
      var t := InteriorRefPoint(p, i, j);
      ToReferenceOfMap(A1, A2, A3, t);
      assert Point(InteriorNode(m, N, p, K, i, j).x, InteriorNode(m, N, p, K, i, j).y) == MapToElement(A1, A2, A3, t);
    }
  }

  /** The tag of DOF n: its mesh node's for a vertex, its edge's for an edge DOF, Interior inside an element. */
  function DofTag(m: Mesh2D, p: int, n: int): BC
    requires m.EdgesValid() && p > 0 && 0 <= n
  {
    if n < m.numNodes then m.meshNodes[n].bc
    else if n < InteriorStart(m, p) then
      EdgeDofIndex(m, p, n);
      EdgeTag(m, EdgeOfDof(m, p, n))
    else Interior
  }

  /** Each DOF node carries its DOF's tag, so only vertex and edge DOFs can be constrained. */
  lemma DofTags(m: Mesh2D, N: nat, p: int, n: int)
    requires m.Valid() && p > 0 && 0 <= n < NumDofs(m, p)
    ensures DofNode(m, N, p, n).bc == DofTag(m, p, n)
    ensures DofTag(m, p, n).IsConstrained() ==> n < InteriorStart(m, p)
  {
  }

  /** Every DOF of edge e carries the edge's tag. */
  lemma DofTagOfEdge(m: Mesh2D, p: int, e: int, i: int)
    requires m.EdgesValid() && p > 1 && 0 <= e < m.numEdges && 0 <= i < p - 1
    ensures m.numNodes <= EdgeDof(m, p, e, i) < InteriorStart(m, p)
    ensures DofTag(m, p, EdgeDof(m, p, e, i)) == EdgeTag(m, e)
  {
    EdgeDofRange(m, p, e, i);
    BlockOfBlocks(e, p - 1, i);
    assert EdgeDof(m, p, e, i) - m.numNodes == Blocks(e, p - 1) + i;
  }

  /** An edge DOF is constrained only on a boundary edge, where it carries the tag of one of the edge's end points. */
  lemma EdgeDofTag(m: Mesh2D, p: int, e: int, i: int)
    requires m.EdgesValid() && p > 1 && 0 <= e < m.numEdges && 0 <= i < p - 1
    ensures EdgeDof(m, p, e, i) >= 0
    ensures var I, J := m.edgeArray[e][0], m.edgeArray[e][1]; var bc := DofTag(m, p, EdgeDof(m, p, e, i));
      bc.IsConstrained() ==> m.edgeTypeMatrix[I][J] == 1 && (bc == m.meshNodes[I].bc || bc == m.meshNodes[J].bc)
  {
    DofTagOfEdge(m, p, e, i);
  }

  /**
   * For degree 2 the DOF in edge slot s of element K sits at the image of
   * reference node 3 + s of the degree-2 shape functions, the midpoint of
   * the slot's edge: the local numbering matches the shape numbering.
   */
  lemma MidpointDofs(m: Mesh2D, N: nat, K: int, s: int)
    requires m.Valid() && 0 <= K < m.size && 0 <= s < 3
    ensures 3 + s < RowWidth(2)
    ensures 0 <= ConnEntry(m, 2, K, 3 + s) < NumDofs(m, 2)
    ensures var node := DofNode(m, N, 2, ConnEntry(m, 2, K, 3 + s));
      var (A1, A2, A3) := Corners(m, K);
      Point(node.x, node.y) == MapToElement(A1, A2, A3, Degree2Node(3 + s))
  {
    ConnEntrySlot(m, 2, K, s, 0);
    ConnEntryRange(m, 2, K, 3 + s);
    var E := SlotEdge(m, K, s);
    DofNodeOfEdge(m, N, 2, E, 0);
    var I, J := m.connectivity[K][SlotFirst(s)], m.connectivity[K][SlotSecond(s)];
    var node := EdgeNode(m, N, 2, E, 0);
    assert EdgeParam(2, 0) == 0.5;
    MidpointOfEnds(m, N, E, I, J);
    var PI, PJ := Position(m.meshNodes[I]), Position(m.meshNodes[J]);
    var mid := Point(0.5 * PI.x + 0.5 * PJ.x, 0.5 * PI.y + 0.5 * PJ.y);
    assert DofNode(m, N, 2, ConnEntry(m, 2, K, 3 + s)) == node;
    assert Point(node.x, node.y) == mid;
    var (A1, A2, A3) := Corners(m, K);
    if s == 0 {
      assert PI == A2 && PJ == A1;
    } else if s == 1 {
      assert PI == A3 && PJ == A2;
    } else {
      assert PI == A3 && PJ == A1;
    }
    MidpointImage(A1, A2, A3, s);
  }

  /** The reference midpoint of side `s` maps to the midpoint of the element's corresponding side. */
  lemma MidpointImage(A1: Point, A2: Point, A3: Point, s: int)
    requires 0 <= s < 3
    ensures var P, Q := (if s == 0 then A2 else A3), (if s == 2 then A1 else if s == 1 then A2 else A1);
      MapToElement(A1, A2, A3, Degree2Node(3 + s)) == Point(0.5 * P.x + 0.5 * Q.x, 0.5 * P.y + 0.5 * Q.y)
  {
  }

  /** The middle DOF of a degree-2 edge is the midpoint of its end points, whichever way round they are listed. */
  lemma MidpointOfEnds(m: Mesh2D, N: nat, E: int, I: int, J: int)
    requires m.Valid() && 0 <= E < m.numEdges && 0 <= I < m.numNodes && 0 <= J < m.numNodes
    requires SameEnds(m.edgeArray[E][0], m.edgeArray[E][1], I, J)
    ensures EdgeNode(m, N, 2, E, 0).x == 0.5 * m.meshNodes[I].x + 0.5 * m.meshNodes[J].x
    ensures EdgeNode(m, N, 2, E, 0).y == 0.5 * m.meshNodes[I].y + 0.5 * m.meshNodes[J].y
  {
    assert EdgeParam(2, 0) == 0.5;
  }
}
