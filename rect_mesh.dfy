/**
 * The uniform rectangular triangulation (UniformRectangularMesh2D.cpp).
 * The rectangle [xMin, xMax] x [yMin, yMax] is cut into nx by ny cells; grid
 * node (r, c) -- row r counted from yMin, column c from xMin -- gets index
 * r (nx + 1) + c, and cell (r, c) is bisected along its bottom-left to
 * top-right diagonal into elements 2 (r nx + c) (bottom-left, bottom-right,
 * top-right) and 2 (r nx + c) + 1 (bottom-left, top-left, top-right).
 * Three edge tables follow: the incidence counts of vertex pairs, the list of
 * edges in lexicographic order, and the 1-based edge ids of vertex pairs.
 */
module RectangularMesh {
  import opened Boundary
  import opened TriangularMesh
  import opened Numbering

  // ---------------------------------------------------------------------
  // Grid numbering
  // ---------------------------------------------------------------------

  /** The index of grid node (r, c). */
  function GridIndex(nx: nat, r: nat, c: nat): nat
  {
    r * (nx + 1) + c
  }

  /** The row of grid node v. */
  function Row(nx: nat, v: nat): nat
  {
    v / (nx + 1)
  }

  /** The column of grid node v. */
  function Col(nx: nat, v: nat): nat
  {
    v % (nx + 1)
  }

  /** Row and column recover the pair a grid index was made from. */
  lemma GridDecode(nx: nat, r: nat, c: nat)
    requires c <= nx
    ensures Row(nx, GridIndex(nx, r, c)) == r && Col(nx, GridIndex(nx, r, c)) == c
  {
    BlockDivMod(nx + 1, r, c);
  }

  /** Every index is the grid index of its row and column. */
  lemma GridEncode(nx: nat, v: nat)
    ensures Col(nx, v) <= nx && v == GridIndex(nx, Row(nx, v), Col(nx, v))
  {
  }

  function NumNodes(nx: nat, ny: nat): nat
  {
    (nx + 1) * (ny + 1)
  }

  function NumElements(nx: nat, ny: nat): nat
  {
    2 * nx * ny
  }

  /** The edge count the constructor writes down before it builds the edge list. */
  function NumEdges(nx: nat, ny: nat): int
  {
    5 + 4 * (nx + ny - 2) + 3 * (nx - 1) * (ny - 1)
  }

  /**
   * The edge-count formula is 3 nx ny + nx + ny: the nx (ny + 1) horizontal,
   * (nx + 1) ny vertical and nx ny diagonal sides, or 3 nx + 1 sides started
   * by each of the ny lower grid rows and nx by the top one.
   */
  lemma NumEdgesSides(nx: nat, ny: nat)
    ensures NumEdges(nx, ny) == 3 * nx * ny + nx + ny
    ensures NumEdges(nx, ny) == nx * (ny + 1) + (nx + 1) * ny + nx * ny
    ensures NumEdges(nx, ny) == ny * (3 * nx + 1) + nx
  {
  }

  /** A node index is on one of the ny + 1 rows. */
  lemma RowBound(nx: nat, ny: nat, v: nat)
    requires v < NumNodes(nx, ny)
    ensures Row(nx, v) <= ny
  {
    var r := Row(nx, v);
    GridEncode(nx, v);
    assert NumNodes(nx, ny) == ny * (nx + 1) + nx + 1;
    if r > ny {
      BlockOrder(ny, r, nx + 1);
      assert false;
    }
  }

  /** The node below the top row has its upper neighbour, and one left of the last column its right one. */
  lemma Neighbours(nx: nat, ny: nat, v: nat)
    requires v < NumNodes(nx, ny)
    ensures Col(nx, v) < nx ==> v + 1 < NumNodes(nx, ny)
    ensures Row(nx, v) < ny ==> v + nx + 1 < NumNodes(nx, ny)
    ensures Row(nx, v) < ny && Col(nx, v) < nx ==> v + nx + 2 < NumNodes(nx, ny)
  {
    var r, c := Row(nx, v), Col(nx, v);
    GridEncode(nx, v);
    RowBound(nx, ny, v);
    if r < ny {
      BlockOrder(r, ny, nx + 1);
    } else {
      assert NumNodes(nx, ny) == ny * (nx + 1) + nx + 1;
    }
  }

  // ---------------------------------------------------------------------
  // Nodes
  // ---------------------------------------------------------------------

  /** A node as the constructor first allocates it: every field at its default. */
  const DefaultNode := MeshNode2D(0.0, 0.0, Interior, false)

  /** Grid node v of the grid with origin (xMin, yMin) and spacings dx, dy. */
  function GridNode(xMin: real, dx: real, yMin: real, dy: real, nx: nat, v: nat): MeshNode2D
  {
    MeshNode2D(xMin + Col(nx, v) as real * dx, yMin + Row(nx, v) as real * dy, Interior, false)
  }

  /** Grid node (r, c) is the default node moved c spacings right of xMin and r spacings above yMin. */
  lemma GridNodeAt(xMin: real, dx: real, yMin: real, dy: real, nx: nat, r: nat, c: nat)
    requires c <= nx
    ensures GridNode(xMin, dx, yMin, dy, nx, GridIndex(nx, r, c)) ==
      DefaultNode.(x := xMin + c as real * dx, y := yMin + r as real * dy)
  {
    var v := GridIndex(nx, r, c);
    GridDecode(nx, r, c);
    assert Row(nx, v) == r && Col(nx, v) == c;
    assert DefaultNode == MeshNode2D(0.0, 0.0, Interior, false);
    assert GridNode(xMin, dx, yMin, dy, nx, v) == MeshNode2D(xMin + c as real * dx, yMin + r as real * dy, Interior, false);
  }

  /** The node loop: node r (nx + 1) + c gets coordinates (xMin + c dx, yMin + r dy). */
  method PlaceNodes(xMin: real, dx: real, yMin: real, dy: real, nx: nat, ny: nat) returns (nodes: array<MeshNode2D>)
    ensures fresh(nodes) && nodes.Length == NumNodes(nx, ny)
    ensures forall v :: 0 <= v < nodes.Length ==> nodes[v] == GridNode(xMin, dx, yMin, dy, nx, v)
  {
    nodes := new MeshNode2D[NumNodes(nx, ny)](_ => DefaultNode);
    for i := 0 to ny + 1
      invariant forall v :: 0 <= v < i * (nx + 1) ==> nodes[v] == GridNode(xMin, dx, yMin, dy, nx, v)
      invariant forall v :: i * (nx + 1) <= v < nodes.Length ==> nodes[v] == DefaultNode
    {
      BlockOrder(i, ny + 1, nx + 1);
      PlaceRow(nodes, xMin, dx, yMin, dy, nx, i, i * (nx + 1));
      assert i * (nx + 1) + nx + 1 == (i + 1) * (nx + 1);
    }
  }

  /** One pass of the node loop: the nodes of row i, left to right, from index base = i (nx + 1) on. */
  method PlaceRow(nodes: array<MeshNode2D>, xMin: real, dx: real, yMin: real, dy: real, nx: nat, i: nat, base: nat)
    requires base == i * (nx + 1) && base + nx + 1 <= nodes.Length
    requires forall v :: 0 <= v < base ==> nodes[v] == GridNode(xMin, dx, yMin, dy, nx, v)
    requires forall v :: base <= v < nodes.Length ==> nodes[v] == DefaultNode
    modifies nodes
    ensures forall v :: 0 <= v < base + nx + 1 ==> nodes[v] == GridNode(xMin, dx, yMin, dy, nx, v)
    ensures forall v :: base + nx + 1 <= v < nodes.Length ==> nodes[v] == DefaultNode
  {
    for j := 0 to nx + 1
      invariant forall v :: 0 <= v < base + j ==> nodes[v] == GridNode(xMin, dx, yMin, dy, nx, v)
      invariant forall v :: base + j <= v < nodes.Length ==> nodes[v] == DefaultNode
    {
      var v := base + j;
      GridNodeAt(xMin, dx, yMin, dy, nx, i, j);
      nodes[v] := nodes[v].(x := xMin + j as real * dx, y := yMin + i as real * dy);
    }
  }

  // ---------------------------------------------------------------------
  // Elements
  // ---------------------------------------------------------------------

  /**
   * Element K: the cell K / 2 counted row by row, bisected into the
   * bottom-right triangle (K even) and the top-left triangle (K odd).
   */
  function Triangle(nx: nat, K: nat): seq<int>
    requires nx > 0
  {
    var cell := K / 2;
    var r, c := cell / nx, cell % nx;
    var botLeft, botRight := GridIndex(nx, r, c), GridIndex(nx, r, c + 1);
    var topLeft, topRight := GridIndex(nx, r + 1, c), GridIndex(nx, r + 1, c + 1);
    if K % 2 == 0 then [botLeft, botRight, topRight] else [botLeft, topLeft, topRight]
  }

  /** The corners of a cell as offsets from its bottom-left node. */
  lemma CornerOffsets(nx: nat, r: nat, c: nat)
    ensures GridIndex(nx, r, c + 1) == GridIndex(nx, r, c) + 1
    ensures GridIndex(nx, r + 1, c) == GridIndex(nx, r, c) + nx + 1
    ensures GridIndex(nx, r + 1, c + 1) == GridIndex(nx, r, c) + nx + 2
  {
  }

  /** The node after the last one of row r starts row r + 1. */
  lemma RowWrap(nx: nat, r: nat)
    ensures GridIndex(nx, r, nx) + 1 == GridIndex(nx, r + 1, 0)
  {
  }

  /** The two elements of cell (r, c) share its bottom-left to top-right diagonal. */
  lemma CellTriangles(nx: nat, r: nat, c: nat)
    requires c < nx
    ensures Triangle(nx, 2 * (r * nx + c)) ==
      [GridIndex(nx, r, c), GridIndex(nx, r, c + 1), GridIndex(nx, r + 1, c + 1)]
    ensures Triangle(nx, 2 * (r * nx + c) + 1) ==
      [GridIndex(nx, r, c), GridIndex(nx, r + 1, c), GridIndex(nx, r + 1, c + 1)]
  {
    BlockDivMod(nx, r, c);
  }

  /**
   * The two elements of cell (r, c) are right triangles that together tile the
   * cell [x0, x0 + dx] x [y0, y0 + dy]: the lower one has its right angle at the
   * bottom-right corner, the upper one at the top-left corner, and both have
   * the diagonal from (x0, y0) to (x0 + dx, y0 + dy) as a side.
   */
  lemma CellGeometry(xMin: real, dx: real, yMin: real, dy: real, nx: nat, r: nat, c: nat)
    requires c < nx
    ensures var x0, y0 := xMin + c as real * dx, yMin + r as real * dy;
      var lower, upper := Triangle(nx, 2 * (r * nx + c)), Triangle(nx, 2 * (r * nx + c) + 1);
      && GridNode(xMin, dx, yMin, dy, nx, lower[0]) == DefaultNode.(x := x0, y := y0)
      && GridNode(xMin, dx, yMin, dy, nx, lower[1]) == DefaultNode.(x := x0 + dx, y := y0)
      && GridNode(xMin, dx, yMin, dy, nx, lower[2]) == DefaultNode.(x := x0 + dx, y := y0 + dy)
      && GridNode(xMin, dx, yMin, dy, nx, upper[0]) == DefaultNode.(x := x0, y := y0)
      && GridNode(xMin, dx, yMin, dy, nx, upper[1]) == DefaultNode.(x := x0, y := y0 + dy)
      && GridNode(xMin, dx, yMin, dy, nx, upper[2]) == DefaultNode.(x := x0 + dx, y := y0 + dy)
  {
    var bl, br := GridIndex(nx, r, c), GridIndex(nx, r, c + 1);
    var tl, tr := GridIndex(nx, r + 1, c), GridIndex(nx, r + 1, c + 1);
    CellTriangles(nx, r, c);
    GridNodeAt(xMin, dx, yMin, dy, nx, r, c);
    GridNodeRight(xMin, dx, yMin, dy, nx, r, c);
    GridNodeUp(xMin, dx, yMin, dy, nx, r, c);
    GridNodeUp(xMin, dx, yMin, dy, nx, r, c + 1);
  }

  /** One step along a row moves a node dx to the right. */
  lemma GridNodeRight(xMin: real, dx: real, yMin: real, dy: real, nx: nat, r: nat, c: nat)
    requires c < nx
    ensures var p := GridNode(xMin, dx, yMin, dy, nx, GridIndex(nx, r, c));
      GridNode(xMin, dx, yMin, dy, nx, GridIndex(nx, r, c + 1)) == p.(x := p.x + dx)
  {
    GridNodeAt(xMin, dx, yMin, dy, nx, r, c);
    GridNodeAt(xMin, dx, yMin, dy, nx, r, c + 1);
    ShiftOne(xMin, c, dx);
  }

  /** One step up a column moves a node dy up. */
  lemma GridNodeUp(xMin: real, dx: real, yMin: real, dy: real, nx: nat, r: nat, c: nat)
    requires c <= nx
    ensures var p := GridNode(xMin, dx, yMin, dy, nx, GridIndex(nx, r, c));
      GridNode(xMin, dx, yMin, dy, nx, GridIndex(nx, r + 1, c)) == p.(y := p.y + dy)
  {
    GridNodeAt(xMin, dx, yMin, dy, nx, r, c);
    GridNodeAt(xMin, dx, yMin, dy, nx, r + 1, c);
    ShiftOne(yMin, r, dy);
  }

  lemma ShiftOne(a: real, n: nat, d: real)
    ensures a + (n + 1) as real * d == (a + n as real * d) + d
  {
  }

  /** The cell row and column of element K, with its bottom-left node. */
  lemma TriangleCell(nx: nat, ny: nat, K: nat)
    requires nx > 0 && K < NumElements(nx, ny)
    ensures 0 <= (K / 2) / nx < ny && (K / 2) % nx < nx
    ensures var bl := GridIndex(nx, (K / 2) / nx, (K / 2) % nx);
      Row(nx, bl) < ny && Col(nx, bl) < nx &&
      Triangle(nx, K) == (if K % 2 == 0 then [bl, bl + 1, bl + nx + 2] else [bl, bl + nx + 1, bl + nx + 2])
  {
    CellBounds(nx, ny, K / 2);
    DivNonnegative(K / 2, nx);
    var r, c := (K / 2) / nx, (K / 2) % nx;
    GridDecode(nx, r, c);
    CornerOffsets(nx, r, c);
  }

  /** Cell number cell < nx ny lies in row cell / nx < ny and column cell % nx < nx. */
  lemma CellBounds(nx: nat, ny: nat, cell: nat)
    requires nx > 0 && cell < ny * nx
    ensures cell / nx < ny && cell % nx < nx
  {
    BlockRange(ny, nx, cell);
    assert cell == (cell / nx) * nx + cell % nx;
    if cell / nx == ny {
      assert false;
    }
  }

  /** Every element has three distinct vertices, all of them grid nodes. */
  lemma TriangleInRange(nx: nat, ny: nat, K: nat)
    requires nx > 0 && K < NumElements(nx, ny)
    ensures |Triangle(nx, K)| == 3
    ensures forall a :: 0 <= a < 3 ==> 0 <= Triangle(nx, K)[a] < NumNodes(nx, ny)
    ensures Triangle(nx, K)[0] < Triangle(nx, K)[1] < Triangle(nx, K)[2]
  {
    var R, C := CellOf(nx, ny, K);
    var bl := GridIndex(nx, R, C);
    TriangleCell(nx, ny, K);
    GridIndexInRange(nx, ny, R, C);
    Neighbours(nx, ny, bl);
  }

  /** The connectivity loop: element K holds the vertices of Triangle(nx, K). */
  method BuildConnectivity(nx: nat, ny: nat) returns (conn: array2<int>)
    requires nx > 0
    ensures fresh(conn) && conn.Length0 == NumElements(nx, ny) && conn.Length1 == 3
    ensures forall K, a :: 0 <= K < conn.Length0 && 0 <= a < 3 ==> conn[K, a] == Triangle(nx, K)[a]
  {
    conn := new int[NumElements(nx, ny), 3];
    var K := 0;
    for i := 0 to ny
      invariant K == 2 * (i * nx)
      invariant forall k, a :: 0 <= k < K && 0 <= a < 3 ==> conn[k, a] == Triangle(nx, k)[a]
    {
      ElementRows(nx, ny, i);
      K := ConnectRow(conn, nx, i, K);
    }
    ElementRows(nx, ny, ny);
  }

  /** The elements of cell rows below i are numbered from 0 to 2 i nx, and those of row i follow. */
  lemma ElementRows(nx: nat, ny: nat, i: nat)
    requires nx > 0 && i <= ny
    ensures i < ny ==> 2 * (i * nx) + 2 * nx <= NumElements(nx, ny)
    ensures 2 * (i * nx) + 2 * nx == 2 * ((i + 1) * nx)
    ensures NumElements(nx, ny) == 2 * (ny * nx)
  {
    if i < ny {
      BlockOrder(i, ny, nx);
    }
    assert (i + 1) * nx == i * nx + nx;
    assert 2 * nx * ny == 2 * (ny * nx);
  }

  /** One pass of the connectivity loop: the two elements of each cell of row i, from element K0 = 2 i nx on. */
  method ConnectRow(conn: array2<int>, nx: nat, i: nat, K0: nat) returns (K: nat)
    requires nx > 0 && K0 == 2 * (i * nx) && K0 + 2 * nx <= conn.Length0 && conn.Length1 == 3
    requires forall k, a :: 0 <= k < K0 && 0 <= a < 3 ==> conn[k, a] == Triangle(nx, k)[a]
    modifies conn
    ensures K == K0 + 2 * nx
    ensures forall k, a :: 0 <= k < K && 0 <= a < 3 ==> conn[k, a] == Triangle(nx, k)[a]
  {
    K := K0;
    for j := 0 to nx
      invariant K == K0 + 2 * j
      invariant forall k, a :: 0 <= k < K && 0 <= a < 3 ==> conn[k, a] == Triangle(nx, k)[a]
    {
      var botLeft := GridIndex(nx, i, j);
      var botRight := GridIndex(nx, i, j + 1);
      var topLeft := GridIndex(nx, i + 1, j);
      var topRight := GridIndex(nx, i + 1, j + 1);
      CellTriangles(nx, i, j);
      conn[K, 0] := botLeft;
      conn[K, 1] := botRight;
      conn[K, 2] := topRight;
      conn[K + 1, 0] := botLeft;
      conn[K + 1, 1] := topLeft;
      conn[K + 1, 2] := topRight;
      K := K + 2;
    }
  }

  // ---------------------------------------------------------------------
  // Edge incidence counts
  // ---------------------------------------------------------------------

  /** How many of the first m vertices of t are v. */
  function OccBelow(t: seq<int>, v: int, m: nat): nat
    requires m <= |t|
  {
    if m == 0 then 0 else OccBelow(t, v, m - 1) + (if t[m - 1] == v then 1 else 0)
  }

  /** How many vertices of t are v. */
  function Occ(t: seq<int>, v: int): nat
  {
    OccBelow(t, v, |t|)
  }

  /** How many ordered pairs (j, k) of positions of t with j < m have t[j] == v and t[k] == w. */
  function PairsBelow(t: seq<int>, v: int, w: int, m: nat): nat
    requires m <= |t|
  {
    if m == 0 then 0 else PairsBelow(t, v, w, m - 1) + (if t[m - 1] == v then Occ(t, w) else 0)
  }

  /** How many ordered pairs of positions of t hold (v, w). */
  function Pairs(t: seq<int>, v: int, w: int): nat
  {
    PairsBelow(t, v, w, |t|)
  }

  /**
   * The edge-type entry (v, w) after the first K elements: every element adds
   * one for each ordered pair of its local vertices (j, k) that lands on (v, w).
   */
  function EdgeType(nx: nat, K: nat, v: int, w: int): nat
    requires nx > 0
  {
    if K == 0 then 0 else EdgeType(nx, K - 1, v, w) + Pairs(Triangle(nx, K - 1), v, w)
  }

  /** One pass of the element loop: the nine increments of element i's vertex pairs. */
  method CountElement(T: array2<int>, conn: array2<int>, i: nat, ghost t: seq<int>)
    requires T != conn && i < conn.Length0 && conn.Length1 == 3 && |t| == 3
    requires forall a :: 0 <= a < 3 ==> conn[i, a] == t[a] && 0 <= t[a] < T.Length0 && t[a] < T.Length1
    modifies T
    ensures forall v, w :: 0 <= v < T.Length0 && 0 <= w < T.Length1 ==>
      T[v, w] == old(T[v, w]) + Pairs(t, v, w)
  {
    for j := 0 to 3
      invariant forall v, w :: 0 <= v < T.Length0 && 0 <= w < T.Length1 ==>
        T[v, w] == old(T[v, w]) + PairsBelow(t, v, w, j)
    {
      for k := 0 to 3
        invariant forall v, w :: 0 <= v < T.Length0 && 0 <= w < T.Length1 ==>
          T[v, w] == old(T[v, w]) + PairsBelow(t, v, w, j) + (if t[j] == v then OccBelow(t, w, k) else 0)
      {
        var vj := conn[i, j];
        var vk := conn[i, k];
        T[vj, vk] := T[vj, vk] + 1;
      }
    }
  }

  /** The edge-type loops: zero the table, then count the vertex pairs of every element. */
  method BuildEdgeTypes(conn: array2<int>, nx: nat, ny: nat) returns (T: array2<int>)
    requires nx > 0 && conn.Length0 == NumElements(nx, ny) && conn.Length1 == 3
    requires forall K, a :: 0 <= K < conn.Length0 && 0 <= a < 3 ==> conn[K, a] == Triangle(nx, K)[a]
    ensures fresh(T) && T.Length0 == NumNodes(nx, ny) && T.Length1 == NumNodes(nx, ny)
    ensures forall v, w :: 0 <= v < T.Length0 && 0 <= w < T.Length1 ==> T[v, w] == EdgeType(nx, conn.Length0, v, w)
  {
    var n := NumNodes(nx, ny);
    T := new int[n, n];
    ZeroTable(T);
    for i := 0 to conn.Length0
      invariant forall v, w :: 0 <= v < n && 0 <= w < n ==> T[v, w] == EdgeType(nx, i, v, w)
    {
      TriangleInRange(nx, ny, i);
      CountElement(T, conn, i, Triangle(nx, i));
    }
  }

  /** The zeroing loops in front of the edge-type and edge matrices. */
  method ZeroTable(M: array2<int>)
    modifies M
    ensures forall v, w :: 0 <= v < M.Length0 && 0 <= w < M.Length1 ==> M[v, w] == 0
  {
    for i := 0 to M.Length0
      invariant forall v, w :: 0 <= v < i && 0 <= w < M.Length1 ==> M[v, w] == 0
    {
      for j := 0 to M.Length1
        invariant forall v, w :: 0 <= v < i && 0 <= w < M.Length1 ==> M[v, w] == 0
        invariant forall w :: 0 <= w < j ==> M[i, w] == 0
      {
        M[i, j] := 0;
      }
    }
  }

  /** An element's vertices are distinct, so a pair of vertices is counted once if both are in it and never otherwise. */
  lemma PairsOfTriangle(nx: nat, ny: nat, K: nat, v: int, w: int)
    requires nx > 0 && K < NumElements(nx, ny)
    ensures Pairs(Triangle(nx, K), v, w) == if v in Triangle(nx, K) && w in Triangle(nx, K) then 1 else 0
  {
    var t := Triangle(nx, K);
    TriangleInRange(nx, ny, K);
    assert Occ(t, w) == if w in t then 1 else 0 by {
      assert OccBelow(t, w, 1) == if t[0] == w then 1 else 0;
      assert OccBelow(t, w, 2) == OccBelow(t, w, 1) + if t[1] == w then 1 else 0;
    }
    assert PairsBelow(t, v, w, 1) == if t[0] == v then Occ(t, w) else 0;
    assert PairsBelow(t, v, w, 2) == PairsBelow(t, v, w, 1) + if t[1] == v then Occ(t, w) else 0;
  }

  /** The incidence table is symmetric. */
  lemma {:induction false} EdgeTypeSymmetric(nx: nat, ny: nat, K: nat, v: int, w: int)
    requires nx > 0 && K <= NumElements(nx, ny)
    ensures EdgeType(nx, K, v, w) == EdgeType(nx, K, w, v)
  {
    if K > 0 {
      EdgeTypeSymmetric(nx, ny, K - 1, v, w);
      PairsOfTriangle(nx, ny, K - 1, v, w);
      PairsOfTriangle(nx, ny, K - 1, w, v);
    }
  }

  /** How many of the first K elements have v as a vertex. */
  function Incident(nx: nat, K: nat, v: int): nat
    requires nx > 0
  {
    if K == 0 then 0 else Incident(nx, K - 1, v) + if v in Triangle(nx, K - 1) then 1 else 0
  }

  /** A diagonal entry of the incidence table counts the elements around the vertex. */
  lemma {:induction false} EdgeTypeDiagonal(nx: nat, ny: nat, K: nat, v: int)
    requires nx > 0 && K <= NumElements(nx, ny)
    ensures EdgeType(nx, K, v, v) == Incident(nx, K, v)
  {
    if K > 0 {
      EdgeTypeDiagonal(nx, ny, K - 1, v);
      PairsOfTriangle(nx, ny, K - 1, v, v);
    }
  }

  /** An element holding both v and w puts a positive count at (v, w). */
  lemma {:induction false} EdgeTypeFromElement(nx: nat, ny: nat, K: nat, k: nat, v: int, w: int)
    requires nx > 0 && k < K <= NumElements(nx, ny)
    requires v in Triangle(nx, k) && w in Triangle(nx, k)
    ensures EdgeType(nx, K, v, w) > 0
  {
    if k < K - 1 {
      EdgeTypeFromElement(nx, ny, K - 1, k, v, w);
    } else {
      PairsOfTriangle(nx, ny, k, v, w);
    }
  }

  /** A positive count at (v, w) comes from an element holding both. */
  lemma {:induction false} ElementFromEdgeType(nx: nat, ny: nat, K: nat, v: int, w: int)
    requires nx > 0 && K <= NumElements(nx, ny) && EdgeType(nx, K, v, w) > 0
    ensures exists k :: 0 <= k < K && v in Triangle(nx, k) && w in Triangle(nx, k)
  {
    PairsOfTriangle(nx, ny, K - 1, v, w);
    if !(v in Triangle(nx, K - 1) && w in Triangle(nx, K - 1)) {
      ElementFromEdgeType(nx, ny, K - 1, v, w);
    }
  }

  // ---------------------------------------------------------------------
  // Which vertex pairs are edges
  // ---------------------------------------------------------------------

  /**
   * v < w are the ends of a triangle side: the horizontal side to the right of
   * v, the vertical side above v, or the diagonal to the upper right of v.
   */
  predicate Adjacent(nx: nat, ny: nat, v: nat, w: nat)
  {
    || (Col(nx, v) < nx && w == v + 1)
    || (Row(nx, v) < ny && w == v + nx + 1)
    || (Row(nx, v) < ny && Col(nx, v) < nx && w == v + nx + 2)
  }

  /** Two vertices of one element are a horizontal, vertical or diagonal grid side. */
  lemma SharedElementAdjacent(nx: nat, ny: nat, k: nat, v: nat, w: nat)
    requires nx > 0 && k < NumElements(nx, ny) && v < w
    requires v in Triangle(nx, k) && w in Triangle(nx, k)
    ensures Adjacent(nx, ny, v, w)
  {
    var r, c := CellOf(nx, ny, k);
    var bl := GridIndex(nx, r, c);
    TriangleCell(nx, ny, k);
    if v == bl {
      assert w == v + 1 || w == v + nx + 1 || w == v + nx + 2;
    } else if v == bl + 1 {
      GridDecode(nx, r, c + 1);
      CornerOffsets(nx, r, c);
      assert Row(nx, v) < ny && w == v + nx + 1;
    } else {
      GridDecode(nx, r + 1, c);
      CornerOffsets(nx, r, c);
      assert v == bl + nx + 1 && Col(nx, v) < nx && w == v + 1;
    }
  }

  /** Element 2 (r nx + c) + s is one of the 2 nx ny elements when (r, c) is a cell. */
  lemma CellElementInRange(nx: nat, ny: nat, r: nat, c: nat)
    requires r < ny && c < nx
    ensures 2 * (r * nx + c) + 1 < NumElements(nx, ny)
  {
    BlockOrder(r, ny, nx);
    assert NumElements(nx, ny) == 2 * (ny * nx);
  }

  /** The lower element of cell (r, c), with corners as offsets from the bottom-left node. */
  lemma LowerElement(nx: nat, ny: nat, r: nat, c: nat) returns (k: nat)
    requires r < ny && c < nx
    ensures k < NumElements(nx, ny)
    ensures var bl := GridIndex(nx, r, c); Triangle(nx, k) == [bl, bl + 1, bl + nx + 2]
  {
    k := 2 * (r * nx + c);
    CellTriangles(nx, r, c);
    CornerOffsets(nx, r, c);
    CellElementInRange(nx, ny, r, c);
  }

  /** The upper element of cell (r, c), with corners as offsets from the bottom-left node. */
  lemma UpperElement(nx: nat, ny: nat, r: nat, c: nat) returns (k: nat)
    requires r < ny && c < nx
    ensures k < NumElements(nx, ny)
    ensures var bl := GridIndex(nx, r, c); Triangle(nx, k) == [bl, bl + nx + 1, bl + nx + 2]
  {
    k := 2 * (r * nx + c) + 1;
    CellTriangles(nx, r, c);
    CornerOffsets(nx, r, c);
    CellElementInRange(nx, ny, r, c);
  }

  /** The horizontal side from (r, c) to (r, c + 1) lies on the cell above it, or on the one below in the top row. */
  lemma HorizontalSideElement(nx: nat, ny: nat, r: nat, c: nat)
    requires ny > 0 && r <= ny && c < nx
    ensures var v := GridIndex(nx, r, c);
      exists k :: 0 <= k < NumElements(nx, ny) && v in Triangle(nx, k) && v + 1 in Triangle(nx, k)
  {
    var v := GridIndex(nx, r, c);
    if r < ny {
      var k := LowerElement(nx, ny, r, c);
      assert v in Triangle(nx, k) && v + 1 in Triangle(nx, k);
    } else {
      var k := UpperElement(nx, ny, r - 1, c);
      CornerOffsets(nx, r - 1, c);
      assert v in Triangle(nx, k) && v + 1 in Triangle(nx, k);
    }
  }

  /** The vertical side from (r, c) to (r + 1, c) lies on the cell to its right, or on the one to its left in the last column. */
  lemma VerticalSideElement(nx: nat, ny: nat, r: nat, c: nat)
    requires nx > 0 && r < ny && c <= nx
    ensures var v := GridIndex(nx, r, c);
      exists k :: 0 <= k < NumElements(nx, ny) && v in Triangle(nx, k) && v + nx + 1 in Triangle(nx, k)
  {
    var v := GridIndex(nx, r, c);
    if c < nx {
      var k := UpperElement(nx, ny, r, c);
      assert v in Triangle(nx, k) && v + nx + 1 in Triangle(nx, k);
    } else {
      var k := LowerElement(nx, ny, r, c - 1);
      CornerOffsets(nx, r, c - 1);
      assert v in Triangle(nx, k) && v + nx + 1 in Triangle(nx, k);
    }
  }

  /** The diagonal from (r, c) to (r + 1, c + 1) lies on both elements of the cell. */
  lemma DiagonalSideElement(nx: nat, ny: nat, r: nat, c: nat)
    requires r < ny && c < nx
    ensures var v := GridIndex(nx, r, c);
      exists k :: 0 <= k < NumElements(nx, ny) && v in Triangle(nx, k) && v + nx + 2 in Triangle(nx, k)
  {
    var v := GridIndex(nx, r, c);
    var k := LowerElement(nx, ny, r, c);
    assert v in Triangle(nx, k) && v + nx + 2 in Triangle(nx, k);
  }

  /** Every grid side lies on an element. */
  lemma AdjacentSharedElement(nx: nat, ny: nat, v: nat, w: nat)
    requires nx > 0 && ny > 0 && v < NumNodes(nx, ny) && Adjacent(nx, ny, v, w)
    ensures exists k :: 0 <= k < NumElements(nx, ny) && v in Triangle(nx, k) && w in Triangle(nx, k)
  {
    var r, c := Row(nx, v), Col(nx, v);
    GridEncode(nx, v);
    RowBound(nx, ny, v);
    if c < nx && w == v + 1 {
      HorizontalSideElement(nx, ny, r, c);
    } else if r < ny && w == v + nx + 1 {
      VerticalSideElement(nx, ny, r, c);
    } else {
      DiagonalSideElement(nx, ny, r, c);
    }
  }

  /** For v < w, the incidence entry (v, w) is positive exactly when v and w are the ends of a grid side. */
  lemma EdgeTypePositive(nx: nat, ny: nat, v: nat, w: nat)
    requires nx > 0 && ny > 0 && v < w < NumNodes(nx, ny)
    ensures EdgeType(nx, NumElements(nx, ny), v, w) > 0 <==> Adjacent(nx, ny, v, w)
  {
    if EdgeType(nx, NumElements(nx, ny), v, w) > 0 {
      ElementFromEdgeType(nx, ny, NumElements(nx, ny), v, w);
      var k :| 0 <= k < NumElements(nx, ny) && v in Triangle(nx, k) && w in Triangle(nx, k);
      SharedElementAdjacent(nx, ny, k, v, w);
    }
    if Adjacent(nx, ny, v, w) {
      AdjacentSharedElement(nx, ny, v, w);
      var k :| 0 <= k < NumElements(nx, ny) && v in Triangle(nx, k) && w in Triangle(nx, k);
      EdgeTypeFromElement(nx, ny, NumElements(nx, ny), k, v, w);
    }
  }

  /**
   * Counting the elements that hold a vertex pair: when the elements holding
   * both v and w are exactly those listed in O (at most two, distinct), the
   * entry after the first K elements counts the listed ones below K.
   */
  lemma {:induction false} EdgeTypeCounts(nx: nat, ny: nat, K: nat, v: int, w: int, O: seq<nat>)
    requires nx > 0 && K <= NumElements(nx, ny) && |O| <= 2 && (|O| == 2 ==> O[0] != O[1])
    requires forall k :: 0 <= k < NumElements(nx, ny) ==>
      (v in Triangle(nx, k) && w in Triangle(nx, k) <==> k in O)
    ensures EdgeType(nx, K, v, w) ==
      (if |O| > 0 && O[0] < K then 1 else 0) + (if |O| > 1 && O[1] < K then 1 else 0)
  {
    if K > 0 {
      EdgeTypeCounts(nx, ny, K - 1, v, w, O);
      PairsOfTriangle(nx, ny, K - 1, v, w);
    }
  }

  /** The first vertex of element K is the bottom-left corner of cell K / 2; the second is one step right (K even) or up (K odd). */
  lemma TriangleCorner(nx: nat, K: nat)
    requires nx > 0
    ensures |Triangle(nx, K)| == 3
    ensures Row(nx, Triangle(nx, K)[0]) == (K / 2) / nx && Col(nx, Triangle(nx, K)[0]) == (K / 2) % nx
    ensures Triangle(nx, K)[1] == Triangle(nx, K)[0] + if K % 2 == 0 then 1 else nx + 1
  {
    DivNonnegative(K / 2, nx);
    var r, c := (K / 2) / nx, (K / 2) % nx;
    GridDecode(nx, r, c);
    CornerOffsets(nx, r, c);
  }

  /** Distinct elements have distinct vertex lists. */
  lemma TriangleInjective(nx: nat, ny: nat, k: nat, k': nat)
    requires nx > 0 && k < NumElements(nx, ny) && k' < NumElements(nx, ny)
    requires Triangle(nx, k) == Triangle(nx, k')
    ensures k == k'
  {
    TriangleCorner(nx, k);
    TriangleCorner(nx, k');
    var a, a' := k / 2, k' / 2;
    SameQuotientRemainder(a, a', nx);
    assert k % 2 == k' % 2;
  }

  /** Two numbers with the same quotient and remainder by p are equal. */
  lemma SameQuotientRemainder(a: nat, b: nat, p: nat)
    requires p > 0 && a / p == b / p && a % p == b % p
    ensures a == b
  {
    assert a == (a / p) * p + a % p;
    assert b == (b / p) * p + b % p;
  }

  /** An element holding the horizontal side from v to v + 1 is the lower one of the cell above it or the upper one of the cell below it. */
  lemma HorizontalOwner(nx: nat, ny: nat, r: nat, c: nat, k: nat)
    requires nx > 0 && r <= ny && c < nx && k < NumElements(nx, ny)
    requires var v := GridIndex(nx, r, c); v in Triangle(nx, k) && v + 1 in Triangle(nx, k)
    ensures var v := GridIndex(nx, r, c);
      || (r < ny && Triangle(nx, k) == [v, v + 1, v + nx + 2])
      || (r > 0 && Triangle(nx, k) == [v - nx - 1, v, v + 1])
  {
    var R, C := CellOf(nx, ny, k);
    var v, bl := GridIndex(nx, r, c), GridIndex(nx, R, C);
    TriangleCell(nx, ny, k);
    CornerOffsets(nx, R, C);
    if k % 2 == 0 {
      assert v == bl;
      SameGridIndex(nx, r, c, R, C);
    } else {
      assert v == bl + nx + 1;
      SameGridIndex(nx, r, c, R + 1, C);
    }
  }

  /** An element holding the vertical side from v to v + nx + 1 is the upper one of the cell to its right or the lower one of the cell to its left. */
  lemma VerticalOwner(nx: nat, ny: nat, r: nat, c: nat, k: nat)
    requires nx > 0 && r < ny && c <= nx && k < NumElements(nx, ny)
    requires var v := GridIndex(nx, r, c); v in Triangle(nx, k) && v + nx + 1 in Triangle(nx, k)
    ensures var v := GridIndex(nx, r, c);
      || (c < nx && Triangle(nx, k) == [v, v + nx + 1, v + nx + 2])
      || (c > 0 && Triangle(nx, k) == [v - 1, v, v + nx + 1])
  {
    var R, C := CellOf(nx, ny, k);
    var v, bl := GridIndex(nx, r, c), GridIndex(nx, R, C);
    TriangleCell(nx, ny, k);
    CornerOffsets(nx, R, C);
    if k % 2 == 0 {
      assert v == bl + 1;
      SameGridIndex(nx, r, c, R, C + 1);
    } else {
      assert v == bl;
      SameGridIndex(nx, r, c, R, C);
    }
  }

  /** The row and column of the cell that element k lies in. */
  lemma CellOf(nx: nat, ny: nat, k: nat) returns (R: nat, C: nat)
    requires nx > 0 && k < NumElements(nx, ny)
    ensures R == (k / 2) / nx && C == (k / 2) % nx && R < ny && C < nx
  {
    CellBounds(nx, ny, k / 2);
    DivNonnegative(k / 2, nx);
    R, C := (k / 2) / nx, (k / 2) % nx;
  }

  lemma DivNonnegative(a: nat, b: nat)
    requires b > 0
    ensures a / b >= 0
  {
  }

  /** Two row-column pairs with the same grid index are the same pair. */
  lemma SameGridIndex(nx: nat, r: nat, c: nat, r': nat, c': nat)
    requires c <= nx && c' <= nx && GridIndex(nx, r, c) == GridIndex(nx, r', c')
    ensures r == r' && c == c'
  {
    GridDecode(nx, r, c);
    GridDecode(nx, r', c');
  }

  /** An element holding the diagonal from v to v + nx + 2 is one of the two elements of v's cell. */
  lemma DiagonalOwner(nx: nat, ny: nat, v: nat, k: nat)
    requires nx > 0 && k < NumElements(nx, ny)
    requires v in Triangle(nx, k) && v + nx + 2 in Triangle(nx, k)
    ensures Triangle(nx, k) == [v, v + 1, v + nx + 2] || Triangle(nx, k) == [v, v + nx + 1, v + nx + 2]
  {
    TriangleCell(nx, ny, k);
  }

  /** v and w are the two ends of one grid side, in either order. */
  predicate GridSide(nx: nat, ny: nat, v: nat, w: nat)
  {
    Adjacent(nx, ny, v, w) || Adjacent(nx, ny, w, v)
  }

  /** v and w both lie on the bottom, top, left or right side of the rectangle. */
  predicate SameOuterSide(nx: nat, ny: nat, v: nat, w: nat)
  {
    || (Row(nx, v) == 0 && Row(nx, w) == 0)
    || (Row(nx, v) == ny && Row(nx, w) == ny)
    || (Col(nx, v) == 0 && Col(nx, w) == 0)
    || (Col(nx, v) == nx && Col(nx, w) == nx)
  }

  /**
   * The list O of a side's elements: the one with vertices t1 when the first
   * is present, then the one with t2 when the second is. An element whose
   * vertices are a present one's is in the list.
   */
  lemma OwnerListed(nx: nat, ny: nat, k: nat, O: seq<nat>, t1: seq<int>, t2: seq<int>, first: bool, second: bool)
    requires nx > 0 && k < NumElements(nx, ny)
    requires |O| == (if first then 1 else 0) + (if second then 1 else 0)
    requires forall i :: 0 <= i < |O| ==> O[i] < NumElements(nx, ny)
    requires first ==> Triangle(nx, O[0]) == t1
    requires second ==> Triangle(nx, O[|O| - 1]) == t2
    requires (first && Triangle(nx, k) == t1) || (second && Triangle(nx, k) == t2)
    ensures k in O
  {
    if first && Triangle(nx, k) == t1 {
      TriangleInjective(nx, ny, k, O[0]);
    } else {
      TriangleInjective(nx, ny, k, O[|O| - 1]);
    }
  }

  /** The horizontal side from (r, c) to (r, c + 1) has one element on the bottom and top rows and two elsewhere. */
  lemma HorizontalCount(nx: nat, ny: nat, r: nat, c: nat)
    requires nx > 0 && ny > 0 && r <= ny && c < nx
    ensures var v := GridIndex(nx, r, c);
      EdgeType(nx, NumElements(nx, ny), v, v + 1) == if r == 0 || r == ny then 1 else 2
  {
    var N, v := NumElements(nx, ny), GridIndex(nx, r, c);
    var O: seq<nat> := [];
    if r < ny {
      var k := LowerElement(nx, ny, r, c);
      O := [k];
    }
    if r > 0 {
      var k := UpperElement(nx, ny, r - 1, c);
      CornerOffsets(nx, r - 1, c);
      assert Triangle(nx, k) == [v - nx - 1, v, v + 1];
      assert |O| == 1 ==> Triangle(nx, O[0])[0] == v;
      O := O + [k];
    }
    forall k | 0 <= k < N
      ensures v in Triangle(nx, k) && v + 1 in Triangle(nx, k) <==> k in O
    {
      if v in Triangle(nx, k) && v + 1 in Triangle(nx, k) {
        HorizontalOwner(nx, ny, r, c, k);
        OwnerListed(nx, ny, k, O, [v, v + 1, v + nx + 2], [v - nx - 1, v, v + 1], r < ny, r > 0);
      }
    }
    EdgeTypeCounts(nx, ny, N, v, v + 1, O);
  }

  /** The vertical side from (r, c) to (r + 1, c) has one element on the left and right columns and two elsewhere. */
  lemma VerticalCount(nx: nat, ny: nat, r: nat, c: nat)
    requires nx > 0 && ny > 0 && r < ny && c <= nx
    ensures var v := GridIndex(nx, r, c);
      EdgeType(nx, NumElements(nx, ny), v, v + nx + 1) == if c == 0 || c == nx then 1 else 2
  {
    var N, v := NumElements(nx, ny), GridIndex(nx, r, c);
    var O: seq<nat> := [];
    if c < nx {
      var k := UpperElement(nx, ny, r, c);
      O := [k];
    }
    if c > 0 {
      var k := LowerElement(nx, ny, r, c - 1);
      CornerOffsets(nx, r, c - 1);
      assert Triangle(nx, k) == [v - 1, v, v + nx + 1];
      assert |O| == 1 ==> Triangle(nx, O[0])[0] == v;
      O := O + [k];
    }
    forall k | 0 <= k < N
      ensures v in Triangle(nx, k) && v + nx + 1 in Triangle(nx, k) <==> k in O
    {
      if v in Triangle(nx, k) && v + nx + 1 in Triangle(nx, k) {
        VerticalOwner(nx, ny, r, c, k);
        OwnerListed(nx, ny, k, O, [v, v + nx + 1, v + nx + 2], [v - 1, v, v + nx + 1], c < nx, c > 0);
      }
    }
    EdgeTypeCounts(nx, ny, N, v, v + nx + 1, O);
  }

  /** The diagonal of cell (r, c) has the two elements of the cell. */
  lemma DiagonalCount(nx: nat, ny: nat, r: nat, c: nat)
    requires nx > 0 && r < ny && c < nx
    ensures var v := GridIndex(nx, r, c);
      EdgeType(nx, NumElements(nx, ny), v, v + nx + 2) == 2
  {
    var N, v := NumElements(nx, ny), GridIndex(nx, r, c);
    var lower := LowerElement(nx, ny, r, c);
    var upper := UpperElement(nx, ny, r, c);
    var O: seq<nat> := [lower, upper];
    assert Triangle(nx, lower)[1] != Triangle(nx, upper)[1];
    forall k | 0 <= k < N
      ensures v in Triangle(nx, k) && v + nx + 2 in Triangle(nx, k) <==> k in O
    {
      if v in Triangle(nx, k) && v + nx + 2 in Triangle(nx, k) {
        DiagonalOwner(nx, ny, v, k);
        if Triangle(nx, k) == [v, v + 1, v + nx + 2] {
          TriangleInjective(nx, ny, k, lower);
        } else {
          TriangleInjective(nx, ny, k, upper);
        }
      }
    }
    EdgeTypeCounts(nx, ny, N, v, v + nx + 2, O);
  }

  /** EdgeTypeValues for v < w, side by side. */
  lemma EdgeTypeValuesOrdered(nx: nat, ny: nat, v: nat, w: nat)
    requires nx > 0 && ny > 0 && v < w < NumNodes(nx, ny)
    ensures var t := EdgeType(nx, NumElements(nx, ny), v, w);
      && t <= 2
      && (t == 1 <==> GridSide(nx, ny, v, w) && SameOuterSide(nx, ny, v, w))
      && (t == 2 <==> GridSide(nx, ny, v, w) && !SameOuterSide(nx, ny, v, w))
  {
    var r, c := Row(nx, v), Col(nx, v);
    GridEncode(nx, v);
    RowBound(nx, ny, v);
    if c < nx && w == v + 1 {
      HorizontalCount(nx, ny, r, c);
      CornerOffsets(nx, r, c);
      GridDecode(nx, r, c + 1);
    } else if r < ny && w == v + nx + 1 {
      VerticalCount(nx, ny, r, c);
      CornerOffsets(nx, r, c);
      GridDecode(nx, r + 1, c);
    } else if r < ny && c < nx && w == v + nx + 2 {
      DiagonalCount(nx, ny, r, c);
      CornerOffsets(nx, r, c);
      GridDecode(nx, r + 1, c + 1);
    } else {
      EdgeTypePositive(nx, ny, v, w);
    }
  }

  /**
   * Off the diagonal, the edge-type table holds 0, 1 or 2: 1 exactly for the
   * grid sides along the outer boundary (one element holds them) and 2 exactly
   * for the interior grid sides (two elements hold them).
   */
  lemma EdgeTypeValues(nx: nat, ny: nat, v: nat, w: nat)
    requires nx > 0 && ny > 0 && v < NumNodes(nx, ny) && w < NumNodes(nx, ny) && v != w
    ensures var t := EdgeType(nx, NumElements(nx, ny), v, w);
      && t <= 2
      && (t == 0 <==> !GridSide(nx, ny, v, w))
      && (t == 1 <==> GridSide(nx, ny, v, w) && SameOuterSide(nx, ny, v, w))
      && (t == 2 <==> GridSide(nx, ny, v, w) && !SameOuterSide(nx, ny, v, w))
  {
    if v < w {
      EdgeTypeValuesOrdered(nx, ny, v, w);
    } else {
      EdgeTypeSymmetric(nx, ny, NumElements(nx, ny), v, w);
      EdgeTypeValuesOrdered(nx, ny, w, v);
    }
  }

  // ---------------------------------------------------------------------
  // The edge list, scanned from an incidence table
  // ---------------------------------------------------------------------

  /** The incidence table of the grid mesh, as the element loop leaves it. */
  function EdgeTypes(nx: nat, ny: nat): (T: seq<seq<int>>)
    requires nx > 0
    ensures IsTable(T, NumNodes(nx, ny), NumNodes(nx, ny))
  {
    seq(NumNodes(nx, ny), v => seq(NumNodes(nx, ny), w => EdgeType(nx, NumElements(nx, ny), v, w)))
  }

  /** The pairs [v, w] with lo <= w < hi and a positive entry T[v][w], by increasing w. */
  function RowEdges(T: seq<seq<int>>, v: nat, lo: nat, hi: nat): seq<seq<int>>
    requires IsTable(T, |T|, |T|) && v < |T| && hi <= |T|
  {
    if hi <= lo then []
    else RowEdges(T, v, lo, hi - 1) + if T[v][hi - 1] > 0 then [[v, hi - 1]] else []
  }

  /** The edge list once the scan has finished the rows v < i of T, each from v + 1 on. */
  function EdgesBefore(T: seq<seq<int>>, i: nat): seq<seq<int>>
    requires IsTable(T, |T|, |T|) && i <= |T|
  {
    if i == 0 then [] else EdgesBefore(T, i - 1) + RowEdges(T, i - 1, i, |T|)
  }

  /** The edge list the constructor writes: every pair v < w with a positive entry, row by row. */
  function EdgeList(T: seq<seq<int>>): seq<seq<int>>
    requires IsTable(T, |T|, |T|)
  {
    EdgesBefore(T, |T|)
  }

  /** p is a pair [a, b] of node indices with a < b and a positive entry. */
  predicate IsEdgePair(T: seq<seq<int>>, p: seq<int>)
    requires IsTable(T, |T|, |T|)
  {
    |p| == 2 && 0 <= p[0] < p[1] < |T| && T[p[0]][p[1]] > 0
  }

  /** p and q are pairs and p comes strictly before q in lexicographic order. */
  predicate LexBefore(p: seq<int>, q: seq<int>)
  {
    |p| == 2 && |q| == 2 && (p[0] < q[0] || (p[0] == q[0] && p[1] < q[1]))
  }

  /** The entries of a scan of row v from lo to hi: edges [v, w], lo <= w < hi, by increasing w, none missed. */
  predicate RowScanned(T: seq<seq<int>>, R: seq<seq<int>>, v: nat, lo: nat, hi: nat)
    requires IsTable(T, |T|, |T|) && v < |T| && hi <= |T|
  {
    && (forall e :: 0 <= e < |R| ==> IsEdgePair(T, R[e]) && R[e][0] == v && lo <= R[e][1] < hi)
    && (forall e1, e2 :: 0 <= e1 < e2 < |R| ==> R[e1][1] < R[e2][1])
    && (forall w :: lo <= w < hi && T[v][w] > 0 ==> [v, w] in R)
  }

  /** Extending a row scan by w = hi: the entry [v, hi] is appended exactly when T[v][hi] is positive. */
  lemma RowScannedStep(T: seq<seq<int>>, R: seq<seq<int>>, v: nat, lo: nat, hi: nat)
    requires IsTable(T, |T|, |T|) && v < lo <= hi < |T| && RowScanned(T, R, v, lo, hi)
    ensures RowScanned(T, R + if T[v][hi] > 0 then [[v, hi]] else [], v, lo, hi + 1)
  {
    if T[v][hi] > 0 {
      var R' := R + [[v, hi]];
      forall e | 0 <= e < |R'|
        ensures IsEdgePair(T, R'[e]) && R'[e][0] == v && lo <= R'[e][1] < hi + 1
      {
        if e < |R| {
          assert R'[e] == R[e];
        }
      }
      forall e1, e2 | 0 <= e1 < e2 < |R'|
        ensures R'[e1][1] < R'[e2][1]
      {
        assert R'[e1] == R[e1];
      }
      forall w | lo <= w < hi + 1 && T[v][w] > 0
        ensures [v, w] in R'
      {
        if w < hi {
          assert [v, w] in R;
        }
      }
    } else {
      assert R + [] == R;
    }
  }

  lemma {:induction false} RowEdgesScanned(T: seq<seq<int>>, v: nat, lo: nat, hi: nat)
    requires IsTable(T, |T|, |T|) && v < lo <= |T| && hi <= |T|
    ensures RowScanned(T, RowEdges(T, v, lo, hi), v, lo, hi)
  {
    if hi > lo {
      RowEdgesScanned(T, v, lo, hi - 1);
      RowScannedStep(T, RowEdges(T, v, lo, hi - 1), v, lo, hi - 1);
    }
  }

  /** The entries of the scan over the rows below i: edges in lexicographic order starting below i, none missed. */
  predicate Scanned(T: seq<seq<int>>, L: seq<seq<int>>, i: nat)
    requires IsTable(T, |T|, |T|)
  {
    && (forall e :: 0 <= e < |L| ==> IsEdgePair(T, L[e]) && L[e][0] < i)
    && (forall e1, e2 :: 0 <= e1 < e2 < |L| ==> LexBefore(L[e1], L[e2]))
    && (forall a, b :: 0 <= a < i && a < b < |T| && T[a][b] > 0 ==> [a, b] in L)
  }

  /** Appending the scan of row i to the scan of the rows below it gives the scan of the rows below i + 1. */
  lemma ScannedStep(T: seq<seq<int>>, L: seq<seq<int>>, R: seq<seq<int>>, i: nat)
    requires IsTable(T, |T|, |T|) && i < |T|
    requires Scanned(T, L, i) && RowScanned(T, R, i, i + 1, |T|)
    ensures Scanned(T, L + R, i + 1)
  {
    var L' := L + R;
    forall e | 0 <= e < |L'|
      ensures IsEdgePair(T, L'[e]) && L'[e][0] < i + 1
    {
      if e < |L| {
        assert L'[e] == L[e];
      } else {
        assert L'[e] == R[e - |L|];
      }
    }
    forall e1, e2 | 0 <= e1 < e2 < |L'|
      ensures LexBefore(L'[e1], L'[e2])
    {
      if e2 < |L| {
        assert L'[e1] == L[e1] && L'[e2] == L[e2];
      } else if e1 < |L| {
        assert L'[e1] == L[e1] && L'[e2] == R[e2 - |L|];
      } else {
        assert L'[e1] == R[e1 - |L|] && L'[e2] == R[e2 - |L|];
      }
    }
    forall a, b | 0 <= a < i + 1 && a < b < |T| && T[a][b] > 0
      ensures [a, b] in L'
    {
      if a < i {
        assert [a, b] in L;
      } else {
        assert [a, b] in R;
      }
    }
  }

  lemma {:induction false} EdgesBeforeScanned(T: seq<seq<int>>, i: nat)
    requires IsTable(T, |T|, |T|) && i <= |T|
    ensures Scanned(T, EdgesBefore(T, i), i)
  {
    if i > 0 {
      var L, R := EdgesBefore(T, i - 1), RowEdges(T, i - 1, i, |T|);
      EdgesBeforeScanned(T, i - 1);
      RowEdgesScanned(T, i - 1, i, |T|);
      ScannedStep(T, L, R, i - 1);
      assert EdgesBefore(T, i) == L + R;
    }
  }

  /**
   * The edge list holds every pair a < b with a positive entry, each exactly
   * once (the order is strict), in lexicographic order, and nothing else.
   */
  lemma EdgeListExact(T: seq<seq<int>>)
    requires IsTable(T, |T|, |T|)
    ensures forall e :: 0 <= e < |EdgeList(T)| ==> IsEdgePair(T, EdgeList(T)[e])
    ensures forall e1, e2 :: 0 <= e1 < e2 < |EdgeList(T)| ==> LexBefore(EdgeList(T)[e1], EdgeList(T)[e2])
    ensures forall a, b :: 0 <= a < b < |T| && T[a][b] > 0 ==> [a, b] in EdgeList(T)
  {
    EdgesBeforeScanned(T, |T|);
  }

  // ---------------------------------------------------------------------
  // How many edges the grid has
  // ---------------------------------------------------------------------

  /** How many grid sides start at v and go right, up or diagonally up to the right. */
  function UpperDegree(nx: nat, ny: nat, v: nat): nat
  {
    (if Col(nx, v) < nx then 1 else 0) + (if Row(nx, v) < ny then 1 else 0) +
    (if Row(nx, v) < ny && Col(nx, v) < nx then 1 else 0)
  }

  /** A row scan of the grid table that stops at hi finds the sides from v whose far end is below hi. */
  lemma {:induction false} RowEdgesCount(nx: nat, ny: nat, v: nat, hi: nat)
    requires nx > 0 && ny > 0 && v < hi <= NumNodes(nx, ny)
    ensures |RowEdges(EdgeTypes(nx, ny), v, v + 1, hi)| ==
      (if Col(nx, v) < nx && v + 1 < hi then 1 else 0) +
      (if Row(nx, v) < ny && v + nx + 1 < hi then 1 else 0) +
      (if Row(nx, v) < ny && Col(nx, v) < nx && v + nx + 2 < hi then 1 else 0)
  {
    if hi > v + 1 {
      RowEdgesCount(nx, ny, v, hi - 1);
      EdgeTypePositive(nx, ny, v, hi - 1);
    }
  }

  /** Finishing row v of the scan adds the UpperDegree sides from v. */
  lemma EdgesBeforeStep(nx: nat, ny: nat, v: nat)
    requires nx > 0 && ny > 0 && v < NumNodes(nx, ny)
    ensures |EdgesBefore(EdgeTypes(nx, ny), v + 1)| == |EdgesBefore(EdgeTypes(nx, ny), v)| + UpperDegree(nx, ny, v)
  {
    RowEdgesCount(nx, ny, v, NumNodes(nx, ny));
    Neighbours(nx, ny, v);
  }

  /** Grid node (r, c) is a node index. */
  lemma GridIndexInRange(nx: nat, ny: nat, r: nat, c: nat)
    requires r <= ny && c <= nx
    ensures GridIndex(nx, r, c) < NumNodes(nx, ny)
  {
    BlockOrder(r, ny + 1, nx + 1);
    assert NumNodes(nx, ny) == (ny + 1) * (nx + 1);
  }

  /** The sides from the nodes v < i that go right, up or diagonally up to the right. */
  function DegreeSum(nx: nat, ny: nat, i: nat): nat
  {
    if i == 0 then 0 else DegreeSum(nx, ny, i - 1) + UpperDegree(nx, ny, i - 1)
  }

  /** The scan over the rows v < i finds DegreeSum many edges. */
  lemma {:induction false} EdgesBeforeCount(nx: nat, ny: nat, i: nat)
    requires nx > 0 && ny > 0 && i <= NumNodes(nx, ny)
    ensures |EdgesBefore(EdgeTypes(nx, ny), i)| == DegreeSum(nx, ny, i)
  {
    if i > 0 {
      EdgesBeforeCount(nx, ny, i - 1);
      EdgesBeforeStep(nx, ny, i - 1);
    }
  }

  /** The node after v is the next one in its row, or the first of the next row after the last column. */
  lemma NextNode(nx: nat, v: nat)
    ensures Col(nx, v) < nx ==> Row(nx, v + 1) == Row(nx, v) && Col(nx, v + 1) == Col(nx, v) + 1
    ensures Col(nx, v) == nx ==> Row(nx, v + 1) == Row(nx, v) + 1 && Col(nx, v + 1) == 0
  {
    var r, c := Row(nx, v), Col(nx, v);
    GridEncode(nx, v);
    if c < nx {
      GridDecode(nx, r, c + 1);
    } else {
      RowWrap(nx, r);
      GridDecode(nx, r + 1, 0);
    }
  }

  /** The sides started by the full rows below r and by the first c nodes of row r. */
  function SidesBefore(nx: nat, ny: nat, r: nat, c: nat): nat
  {
    r * (3 * nx + 1) + c * (if r < ny then 3 else 1)
  }

  /** Passing node (r, c) adds the sides it starts. */
  lemma SidesStep(nx: nat, ny: nat, r: nat, c: nat)
    requires c <= nx && r <= ny && (r < ny || c < nx)
    ensures var degree := (if c < nx then 1 else 0) + (if r < ny then 1 else 0) + (if r < ny && c < nx then 1 else 0);
      if c < nx then SidesBefore(nx, ny, r, c + 1) == SidesBefore(nx, ny, r, c) + degree
      else SidesBefore(nx, ny, r + 1, 0) == SidesBefore(nx, ny, r, c) + degree
  {
    if c == nx {
      assert (r + 1) * (3 * nx + 1) == r * (3 * nx + 1) + nx * 3 + 1;
    }
  }

  /** Every full row below the top one starts 3 nx + 1 sides; each node of a row starts three, or one in the top row. */
  lemma {:induction false} DegreeSumClosedForm(nx: nat, ny: nat, v: nat)
    requires v < NumNodes(nx, ny)
    ensures DegreeSum(nx, ny, v) == SidesBefore(nx, ny, Row(nx, v), Col(nx, v))
  {
    if v > 0 {
      var u := v - 1;
      var r, c := Row(nx, u), Col(nx, u);
      DegreeSumClosedForm(nx, ny, u);
      assert DegreeSum(nx, ny, v) == SidesBefore(nx, ny, r, c) + UpperDegree(nx, ny, u);
      NextNode(nx, u);
      RowBound(nx, ny, v);
      GridEncode(nx, u);
      SidesStep(nx, ny, r, c);
      if c < nx {
        assert Row(nx, v) == r && Col(nx, v) == c + 1;
      } else {
        assert Row(nx, v) == r + 1 && Col(nx, v) == 0;
      }
    } else {
      GridDecode(nx, 0, 0);
    }
  }

  /** The scan of the grid table finds exactly the number of edges the constructor allocates. */
  lemma EdgeListLength(nx: nat, ny: nat)
    requires nx > 0 && ny > 0
    ensures |EdgeList(EdgeTypes(nx, ny))| == NumEdges(nx, ny)
  {
    var v := GridIndex(nx, ny, nx);
    GridIndexInRange(nx, ny, ny, nx);
    DegreeSumClosedForm(nx, ny, v);
    GridDecode(nx, ny, nx);
    assert DegreeSum(nx, ny, v + 1) == ny * (3 * nx + 1) + nx;
    assert v + 1 == NumNodes(nx, ny);
    EdgesBeforeCount(nx, ny, NumNodes(nx, ny));
    assert |EdgeList(EdgeTypes(nx, ny))| == ny * (3 * nx + 1) + nx;
    NumEdgesSides(nx, ny);
  }

  // ---------------------------------------------------------------------
  // The edge array and the edge matrix
  // ---------------------------------------------------------------------

  /** The scan of row v finds at least as many edges when it goes further. */
  lemma {:induction false} RowEdgesGrow(T: seq<seq<int>>, v: nat, lo: nat, hi: nat, hi': nat)
    requires IsTable(T, |T|, |T|) && v < |T| && hi <= hi' <= |T|
    ensures |RowEdges(T, v, lo, hi)| <= |RowEdges(T, v, lo, hi')|
  {
    if hi < hi' {
      RowEdgesGrow(T, v, lo, hi, hi' - 1);
    }
  }

  /** The scan finds at least as many edges when it covers more rows. */
  lemma {:induction false} EdgesBeforeGrow(T: seq<seq<int>>, i: nat, i': nat)
    requires IsTable(T, |T|, |T|) && i <= i' <= |T|
    ensures |EdgesBefore(T, i)| <= |EdgesBefore(T, i')|
  {
    if i < i' {
      EdgesBeforeGrow(T, i, i' - 1);
    }
  }

  /** Entry e of the edge list after row i comes from the rows below i or, past them, from row i. */
  lemma EdgesBeforeAt(T: seq<seq<int>>, i: nat, e: nat)
    requires IsTable(T, |T|, |T|) && i < |T| && e < |EdgesBefore(T, i + 1)|
    ensures var B := EdgesBefore(T, i);
      EdgesBefore(T, i + 1)[e] == if e < |B| then B[e] else RowEdges(T, i, i + 1, |T|)[e - |B|]
  {
  }

  /**
   * Row i of the edge-array loop: after the B edges of the rows below i, it
   * appends [i, j] for every j > i with a positive entry in row i of T.
   */
  method ScanRow(A: array2<int>, T: array2<int>, ghost tab: seq<seq<int>>, ghost B: seq<seq<int>>, i: nat, E0: nat)
    returns (E: nat)
    requires A != T && IsTable(tab, |tab|, |tab|) && i < |tab|
    requires T.Length0 == |tab| && T.Length1 == |tab|
    requires forall w :: 0 <= w < |tab| ==> T[i, w] == tab[i][w]
    requires A.Length1 == 2 && E0 == |B| && |B| + |RowEdges(tab, i, i + 1, |tab|)| <= A.Length0
    requires forall e :: 0 <= e < |B| ==> [A[e, 0], A[e, 1]] == B[e]
    modifies A
    ensures E == |B| + |RowEdges(tab, i, i + 1, |tab|)|
    ensures forall e :: 0 <= e < |B| ==> [A[e, 0], A[e, 1]] == B[e]
    ensures forall e :: |B| <= e < E ==> [A[e, 0], A[e, 1]] == RowEdges(tab, i, i + 1, |tab|)[e - |B|]
  {
    E := E0;
    ghost var R: seq<seq<int>> := [];
    for j := i + 1 to T.Length0
      invariant R == RowEdges(tab, i, i + 1, j)
      invariant E == |B| + |R| <= |B| + |RowEdges(tab, i, i + 1, |tab|)|
      invariant forall e :: 0 <= e < |B| ==> [A[e, 0], A[e, 1]] == B[e]
      invariant forall e :: |B| <= e < E ==> [A[e, 0], A[e, 1]] == R[e - |B|]
    {
      if T[i, j] > 0 {
        RowEdgesGrow(tab, i, i + 1, j + 1, |tab|);
        A[E, 0] := i;
        A[E, 1] := j;
        E := E + 1;
        R := R + [[i, j]];
      }
    }
  }

  /** The edge-array loop: the first |EdgeList(tab)| rows of the array hold the edge list. */
  method BuildEdgeArray(T: array2<int>, ghost tab: seq<seq<int>>, numEdges: nat) returns (A: array2<int>)
    requires IsTable(tab, |tab|, |tab|) && T.Length0 == |tab| && T.Length1 == |tab|
    requires forall v, w :: 0 <= v < |tab| && 0 <= w < |tab| ==> T[v, w] == tab[v][w]
    requires |EdgeList(tab)| <= numEdges
    ensures fresh(A) && A.Length0 == numEdges && A.Length1 == 2
    ensures forall e :: 0 <= e < |EdgeList(tab)| ==> [A[e, 0], A[e, 1]] == EdgeList(tab)[e]
  {
    A := new int[numEdges, 2];
    var E := 0;
    for i := 0 to T.Length0
      invariant E == |EdgesBefore(tab, i)| <= A.Length0
      invariant forall e :: 0 <= e < E ==> [A[e, 0], A[e, 1]] == EdgesBefore(tab, i)[e]
    {
      EdgesBeforeGrow(tab, i + 1, |tab|);
      E := ScanRow(A, T, tab, EdgesBefore(tab, i), i, E);
      forall e | 0 <= e < E
        ensures [A[e, 0], A[e, 1]] == EdgesBefore(tab, i + 1)[e]
      {
        EdgesBeforeAt(tab, i, e);
      }
    }
  }

  /** Pair p joins v and w, in either orientation. */
  predicate Joins(p: seq<int>, v: int, w: int)
  {
    |p| == 2 && ((p[0] == v && p[1] == w) || (p[0] == w && p[1] == v))
  }

  /**
   * The edge-matrix entry at (v, w) once the first i pairs of L are written
   * in both orientations: one more than the last of them joining v and w, or
   * 0 when none does.
   */
  function EdgeId(L: seq<seq<int>>, i: nat, v: int, w: int): nat
    requires i <= |L|
  {
    if i == 0 then 0 else if Joins(L[i - 1], v, w) then i else EdgeId(L, i - 1, v, w)
  }

  /** A positive id points at a pair joining v and w, and no later pair joins them; id 0 means none does. */
  lemma {:induction false} EdgeIdLast(L: seq<seq<int>>, i: nat, v: int, w: int)
    requires i <= |L|
    ensures EdgeId(L, i, v, w) <= i
    ensures EdgeId(L, i, v, w) > 0 ==> Joins(L[EdgeId(L, i, v, w) - 1], v, w)
    ensures forall e :: EdgeId(L, i, v, w) <= e < i ==> !Joins(L[e], v, w)
  {
    if i > 0 && !Joins(L[i - 1], v, w) {
      EdgeIdLast(L, i - 1, v, w);
    }
  }

  /** The edge matrix is symmetric. */
  lemma {:induction false} EdgeIdSymmetric(L: seq<seq<int>>, i: nat, v: int, w: int)
    requires i <= |L|
    ensures EdgeId(L, i, v, w) == EdgeId(L, i, w, v)
  {
    if i > 0 {
      EdgeIdSymmetric(L, i - 1, v, w);
    }
  }

  /** Pairs a < b in strictly increasing lexicographic order: no two of them join the same vertices. */
  predicate OrderedPairs(L: seq<seq<int>>)
  {
    && (forall e :: 0 <= e < |L| ==> |L[e]| == 2 && L[e][0] < L[e][1])
    && (forall e1, e2 :: 0 <= e1 < e2 < |L| ==> LexBefore(L[e1], L[e2]))
  }

  /** In an ordered list of pairs, the id of v and w is one more than the position of the pair joining them. */
  lemma EdgeIdUnique(L: seq<seq<int>>, e: nat, v: int, w: int)
    requires OrderedPairs(L) && e < |L| && Joins(L[e], v, w)
    ensures EdgeId(L, |L|, v, w) == e + 1
  {
    EdgeIdLast(L, |L|, v, w);
  }

  /** The edge-matrix loop: entry (v, w) becomes EdgeId(L, |L|, v, w). */
  method BuildEdgeMatrix(A: array2<int>, ghost L: seq<seq<int>>, n: nat) returns (M: array2<int>)
    requires A.Length0 == |L| && A.Length1 == 2
    requires forall e :: 0 <= e < |L| ==> [A[e, 0], A[e, 1]] == L[e]
    requires forall e :: 0 <= e < |L| ==> 0 <= L[e][0] < n && 0 <= L[e][1] < n
    ensures fresh(M) && M.Length0 == n && M.Length1 == n
    ensures forall v, w :: 0 <= v < n && 0 <= w < n ==> M[v, w] == EdgeId(L, |L|, v, w)
  {
    M := new int[n, n];
    ZeroTable(M);
    for e := 0 to A.Length0
      invariant forall v, w :: 0 <= v < n && 0 <= w < n ==> M[v, w] == EdgeId(L, e, v, w)
    {
      var a, b := A[e, 0], A[e, 1];
      M[a, b] := e + 1;
      M[b, a] := e + 1;
    }
  }

  /**
   * In the edge-id matrix built from a table's edge list, distinct v and w
   * get a positive id exactly when the table entry of the ordered pair is
   * positive, and that id names a pair joining v and w.
   */
  lemma EdgeIdOfPair(T: seq<seq<int>>, v: nat, w: nat)
    requires IsTable(T, |T|, |T|) && v < |T| && w < |T| && v != w
    ensures var L := EdgeList(T); var id := EdgeId(L, |L|, v, w);
      && (id > 0 <==> (if v < w then T[v][w] else T[w][v]) > 0)
      && (id > 0 ==> id <= |L| && Joins(L[id - 1], v, w))
  {
    var L := EdgeList(T);
    EdgeListExact(T);
    EdgeIdLast(L, |L|, v, w);
    if (if v < w then T[v][w] else T[w][v]) > 0 {
      EdgeOfPositive(T, v, w);
    }
  }

  /** A positive entry puts the ordered pair in the edge list, and so gives v and w a positive edge id. */
  lemma EdgeOfPositive(T: seq<seq<int>>, v: nat, w: nat)
    requires IsTable(T, |T|, |T|) && v < |T| && w < |T| && v != w
    requires (if v < w then T[v][w] else T[w][v]) > 0
    ensures EdgeId(EdgeList(T), |EdgeList(T)|, v, w) > 0
  {
    var L := EdgeList(T);
    var a, b := if v < w then v else w, if v < w then w else v;
    EdgeListExact(T);
    assert [a, b] in L;
    var e :| 0 <= e < |L| && L[e] == [a, b];
    EdgeIdUnique(L, e, v, w);
  }

  /** No edge joins a vertex to itself, so the diagonal of the edge-id matrix is 0. */
  lemma EdgeIdDiagonal(T: seq<seq<int>>, v: int)
    requires IsTable(T, |T|, |T|)
    ensures EdgeId(EdgeList(T), |EdgeList(T)|, v, v) == 0
  {
    var L := EdgeList(T);
    EdgeListExact(T);
    EdgeIdLast(L, |L|, v, v);
  }

  /**
   * On the grid, distinct nodes v and w have a positive edge id exactly when
   * they are the ends of a horizontal, vertical or diagonal side.
   */
  lemma EdgeIdGrid(nx: nat, ny: nat, v: nat, w: nat)
    requires nx > 0 && ny > 0 && v < NumNodes(nx, ny) && w < NumNodes(nx, ny) && v != w
    ensures var L := EdgeList(EdgeTypes(nx, ny)); var id := EdgeId(L, |L|, v, w);
      && (id > 0 <==> if v < w then Adjacent(nx, ny, v, w) else Adjacent(nx, ny, w, v))
      && (id > 0 ==> id <= |L| && Joins(L[id - 1], v, w))
  {
    EdgeIdOfPair(EdgeTypes(nx, ny), v, w);
    if v < w {
      EdgeTypePositive(nx, ny, v, w);
    } else {
      EdgeTypePositive(nx, ny, w, v);
    }
  }

  /** Two vertices of one element have a positive incidence count and an edge id naming the edge between them. */
  lemma ElementEdgeGrid(nx: nat, ny: nat, K: nat, a: nat, b: nat)
    requires nx > 0 && ny > 0 && K < NumElements(nx, ny) && a < 3 && b < 3 && a != b
    ensures var I, J := Triangle(nx, K)[a], Triangle(nx, K)[b];
      var L := EdgeList(EdgeTypes(nx, ny)); var id := EdgeId(L, |L|, I, J);
      && EdgeType(nx, NumElements(nx, ny), I, J) > 0
      && 1 <= id <= |L| && Joins(L[id - 1], I, J)
  {
    var I, J := Triangle(nx, K)[a], Triangle(nx, K)[b];
    TriangleInRange(nx, ny, K);
    assert I in Triangle(nx, K) && J in Triangle(nx, K) && I != J;
    EdgeTypeFromElement(nx, ny, NumElements(nx, ny), K, I, J);
    EdgeTypeSymmetric(nx, ny, NumElements(nx, ny), I, J);
    EdgeIdOfPair(EdgeTypes(nx, ny), I, J);
  }

  // ---------------------------------------------------------------------
  // The mesh object
  // ---------------------------------------------------------------------

  /** The contents of a two-dimensional array, row by row. */
  ghost function Rows(a: array2<int>): (t: seq<seq<int>>)
    reads a
    ensures IsTable(t, a.Length0, a.Length1)
    ensures forall i, j :: 0 <= i < a.Length0 && 0 <= j < a.Length1 ==> t[i][j] == a[i, j]
  {
    seq(a.Length0, i requires 0 <= i < a.Length0 reads a =>
      seq(a.Length1, j requires 0 <= j < a.Length1 reads a => a[i, j]))
  }

  /**
   * A UniformRectangularMesh2D: the 2 nx ny element triangulation of the
   * rectangle [xMin, xMax] x [yMin, yMax], with its node array, element
   * table, edge-incidence matrix, edge array and edge-id matrix. The grid
   * counts and spacings are ghost: the object keeps only the tables.
   */
  class UniformRectangularMesh2D {
    ghost const nx: nat
    ghost const ny: nat
    ghost const xMin: real
    ghost const dx: real
    ghost const yMin: real
    ghost const dy: real
    const size: nat
    const numNodes: nat
    const numEdges: nat
    const meshNodes: array<MeshNode2D>
    const connectivityMatrix: array2<int>
    const edgeArray: array2<int>
    const edgeTypeMatrix: array2<int>
    const edgeMatrix: array2<int>

    /** Every table holds what the grid construction puts in it. */
    ghost predicate Valid()
      reads this, meshNodes, connectivityMatrix, edgeArray, edgeTypeMatrix, edgeMatrix
    {
      && nx > 0 && ny > 0
      && size == NumElements(nx, ny) && numNodes == NumNodes(nx, ny) && numEdges == NumEdges(nx, ny)
      && meshNodes.Length == numNodes
      && (forall v :: 0 <= v < numNodes ==> meshNodes[v] == GridNode(xMin, dx, yMin, dy, nx, v))
      && connectivityMatrix.Length0 == size && connectivityMatrix.Length1 == 3
      && (forall K, a :: 0 <= K < size && 0 <= a < 3 ==> connectivityMatrix[K, a] == Triangle(nx, K)[a])
      && edgeTypeMatrix.Length0 == numNodes && edgeTypeMatrix.Length1 == numNodes
      && (forall v, w :: 0 <= v < numNodes && 0 <= w < numNodes ==> edgeTypeMatrix[v, w] == EdgeType(nx, size, v, w))
      && edgeArray.Length0 == numEdges && edgeArray.Length1 == 2
      && |EdgeList(EdgeTypes(nx, ny))| == numEdges
      && (forall e :: 0 <= e < numEdges ==> [edgeArray[e, 0], edgeArray[e, 1]] == EdgeList(EdgeTypes(nx, ny))[e])
      && edgeMatrix.Length0 == numNodes && edgeMatrix.Length1 == numNodes
      && (forall v, w :: 0 <= v < numNodes && 0 <= w < numNodes ==>
            edgeMatrix[v, w] == EdgeId(EdgeList(EdgeTypes(nx, ny)), numEdges, v, w))
    }

    /** Builds the mesh of [xMin, xMax] x [yMin, yMax] with nx cells across and ny cells up. */
    constructor (xMin: real, xMax: real, yMin: real, yMax: real, nx: nat, ny: nat)
      requires nx > 0 && ny > 0
      ensures Valid()
      ensures this.nx == nx && this.ny == ny && this.xMin == xMin && this.yMin == yMin
      ensures dx == (xMax - xMin) / nx as real && dy == (yMax - yMin) / ny as real
    {
      NumEdgesSides(nx, ny);
      size := 2 * nx * ny;
      numNodes := (nx + 1) * (ny + 1);
      numEdges := 5 + 4 * (nx + ny - 2) + 3 * (nx - 1) * (ny - 1);
      this.nx, this.ny, this.xMin, this.yMin := nx, ny, xMin, yMin;
      var dx := (xMax - xMin) / nx as real;
      var dy := (yMax - yMin) / ny as real;
      this.dx, this.dy := dx, dy;
      var nodes := PlaceNodes(xMin, dx, yMin, dy, nx, ny);
      meshNodes := nodes;
      var conn := BuildConnectivity(nx, ny);
      connectivityMatrix := conn;
      var types := BuildEdgeTypes(conn, nx, ny);
      edgeTypeMatrix := types;
      ghost var tab := EdgeTypes(nx, ny);
      EdgeListLength(nx, ny);
      var edges := BuildEdgeArray(types, tab, NumEdges(nx, ny));
      edgeArray := edges;
      EdgeListExact(tab);
      var ids := BuildEdgeMatrix(edges, EdgeList(tab), NumNodes(nx, ny));
      edgeMatrix := ids;
    }

    /** `mesh(elementIndex, nodeIndex)`: the grid point at vertex nodeIndex of element elementIndex. */
    function Node(elementIndex: int, nodeIndex: int): (node: MeshNode2D)
      reads this, meshNodes, connectivityMatrix, edgeArray, edgeTypeMatrix, edgeMatrix
      requires Valid() && 0 <= elementIndex < size && 0 <= nodeIndex < 3
      ensures node == GridNode(xMin, dx, yMin, dy, nx, Triangle(nx, elementIndex)[nodeIndex])
    {
      TriangleInRange(nx, ny, elementIndex);
      meshNodes[connectivityMatrix[elementIndex, nodeIndex]]
    }

    /** The mesh as the finite-element code reads it; boundary conditions are never set, so numBoundaryNodes is -1. */
    ghost function AsMesh(): Mesh2D
      reads this, meshNodes, connectivityMatrix, edgeArray, edgeTypeMatrix, edgeMatrix
    {
      Mesh2D(size, numNodes, numEdges, meshNodes[..], Rows(connectivityMatrix), Rows(edgeArray),
        Rows(edgeTypeMatrix), Rows(edgeMatrix), -1)
    }

    /** A built mesh is a valid triangular mesh, and its vertex lookup agrees with the generic one. */
    lemma MeshValid()
      requires Valid()
      ensures AsMesh().Valid()
      ensures forall K, a :: 0 <= K < size && 0 <= a < 3 ==> AsMesh().Node(K, a) == Node(K, a)
    {
      var m := AsMesh();
      TablesInRange();
      forall K, i, j | 0 <= K < size && 0 <= i < 3 && 0 <= j < 3 && i != j
        ensures m.ElementEdge(m.connectivity[K][i], m.connectivity[K][j])
      {
        ElementEdgeTables(K, i, j);
        assert m.connectivity[K][i] == connectivityMatrix[K, i] && m.connectivity[K][j] == connectivityMatrix[K, j];
        EdgeOfRows(m, connectivityMatrix[K, i], connectivityMatrix[K, j]);
      }
    }

    /** An edge the arrays know about is one the mesh value knows about. */
    lemma EdgeOfRows(m: Mesh2D, I: int, J: int)
      requires m.numNodes == edgeTypeMatrix.Length0 == edgeTypeMatrix.Length1 == edgeMatrix.Length0 == edgeMatrix.Length1
      requires m.numEdges == edgeArray.Length0 && edgeArray.Length1 == 2 && |m.meshNodes| == m.numNodes
      requires m.edgeArray == Rows(edgeArray) && m.edgeTypeMatrix == Rows(edgeTypeMatrix) && m.edgeMatrix == Rows(edgeMatrix)
      requires 0 <= I < m.numNodes && 0 <= J < m.numNodes
      requires edgeTypeMatrix[I, J] > 0 && 1 <= edgeMatrix[I, J] <= m.numEdges
      requires SameEnds(edgeArray[edgeMatrix[I, J] - 1, 0], edgeArray[edgeMatrix[I, J] - 1, 1], I, J)
      ensures m.ElementEdge(I, J)
    {
      var id := edgeMatrix[I, J];
      assert m.edgeTypeMatrix[I][J] == edgeTypeMatrix[I, J] && m.edgeMatrix[I][J] == id;
      assert m.edgeArray[id - 1][0] == edgeArray[id - 1, 0] && m.edgeArray[id - 1][1] == edgeArray[id - 1, 1];
    }

    /** Element vertices are node indices, and every edge joins two node indices in increasing order. */
    lemma TablesInRange()
      requires Valid()
      ensures forall K, a :: 0 <= K < size && 0 <= a < 3 ==> 0 <= connectivityMatrix[K, a] < numNodes
      ensures forall e :: 0 <= e < numEdges ==> 0 <= edgeArray[e, 0] < edgeArray[e, 1] < numNodes
    {
      var L := EdgeList(EdgeTypes(nx, ny));
      forall K, a | 0 <= K < size && 0 <= a < 3
        ensures 0 <= connectivityMatrix[K, a] < numNodes
      {
        TriangleInRange(nx, ny, K);
      }
      EdgeListExact(EdgeTypes(nx, ny));
      forall e | 0 <= e < numEdges
        ensures 0 <= edgeArray[e, 0] < edgeArray[e, 1] < numNodes
      {
        assert IsEdgePair(EdgeTypes(nx, ny), L[e]);
      }
    }

    /** Vertices i != j of element K have a positive incidence entry and an edge id naming the edge between them. */
    lemma ElementEdgeTables(K: nat, i: nat, j: nat)
      requires Valid() && K < size && i < 3 && j < 3 && i != j
      ensures var I, J := connectivityMatrix[K, i], connectivityMatrix[K, j];
        && 0 <= I < numNodes && 0 <= J < numNodes
        && edgeTypeMatrix[I, J] > 0 && 1 <= edgeMatrix[I, J] <= numEdges
        && SameEnds(edgeArray[edgeMatrix[I, J] - 1, 0], edgeArray[edgeMatrix[I, J] - 1, 1], I, J)
    {
      var I, J := connectivityMatrix[K, i], connectivityMatrix[K, j];
      TriangleInRange(nx, ny, K);
      ElementEdgeGrid(nx, ny, K, i, j);
      var id := edgeMatrix[I, J];
      assert [edgeArray[id - 1, 0], edgeArray[id - 1, 1]] == EdgeList(EdgeTypes(nx, ny))[id - 1];
    }
  }
}
