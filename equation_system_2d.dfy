/**
 * The boundary vectors of the two-dimensional equation systems
 * (EquationSystems/2D/EquationSystem2D.h). The essential vector of a pair of
 * spaces holds, per DOF i of the first space, minus the mass-matrix row i
 * against unknown v at the constrained DOFs of the second space. The natural
 * vector scatters, for each element and each of its vertex pairs that forms
 * a boundary edge with a natural end, the edge integrals of the element's
 * shape functions; the edge integrals are a given integrator.
 */
module EquationSystem2D {
  import opened Boundary
  import opened Vectors
  import opened Matrices
  import opened Elimination
  import opened Assembly
  import opened TriangularMesh
  import opened FiniteElements2D
  import opened FiniteElementMethod2D
  import opened Projection2D

  // ---------------------------------------------------------------------
  // The essential boundary vector

  /** Unknown v of every node, in order. */
  function Unknowns(nodes: seq<FENode2D>, v: nat): (us: seq<real>)
    requires forall i :: 0 <= i < |nodes| ==> v < |nodes[i].vars|
    ensures |us| == |nodes| && forall i :: 0 <= i < |nodes| ==> us[i] == nodes[i].vars[v]
  {
    seq(|nodes|, i requires 0 <= i < |nodes| => nodes[i].vars[v])
  }

  /** The boundary list of a valid space names DOFs of the space, and every node carries N unknowns. */
  lemma SpaceFacts(fem: FEM2D)
    requires fem.Valid()
    ensures IndicesBelow(fem.boundaryIndices, fem.Ng)
    ensures forall i :: 0 <= i < fem.Ng ==> |fem.FENodes[i].vars| == fem.N
  {
    fem.BoundaryIndicesAreConstrained();
    UnknownCounts(fem);
    forall k | 0 <= k < |fem.boundaryIndices|
      ensures 0 <= fem.boundaryIndices[k] < fem.Ng
    {
      assert fem.boundaryIndices[k] in fem.boundaryIndices;
    }
  }

  /** Entry i is 0 minus row i of M against the prescribed values at the boundary list, subtracted in order. */
  function EssentialVector(M: Mat, values: seq<real>, B: seq<int>, n: nat): (r: seq<real>)
    requires n <= |M| && IndicesBelow(B, |values|) && forall i :: 0 <= i < n ==> |M[i]| >= |values|
    ensures |r| == n && forall i :: 0 <= i < n ==> r[i] == Subtracted(0.0, M[i], values, B, |B|)
  {
    seq(n, i requires 0 <= i < n => Subtracted(0.0, M[i], values, B, |B|))
  }

  /** With every prescribed value 0 the essential vector is 0. */
  lemma EssentialVectorHomogeneous(M: Mat, values: seq<real>, B: seq<int>, n: nat)
    requires n <= |M| && IndicesBelow(B, |values|) && forall i :: 0 <= i < n ==> |M[i]| >= |values|
    requires forall k :: 0 <= k < |B| ==> values[B[k]] == 0.0
    ensures EssentialVector(M, values, B, n) == Zeros(n)
  {
    forall i | 0 <= i < n
      ensures EssentialVector(M, values, B, n)[i] == 0.0
    {
      SubtractedHomogeneous(0.0, M[i], values, B, |B|);
    }
  }

  /** The inner loop: bc[i] -= M[i][j] times unknown v of node j, over the boundary list. */
  method SubtractBoundaryColumns(bc: Vector, M: Matrix, nodes: array<FENode2D>, B: seq<int>, v: nat, i: int, ghost values: seq<real>)
    requires bc.Valid() && M.Valid() && 0 <= i < bc.n && i < M.n
    requires IndicesBelow(B, nodes.Length) && IndicesBelow(B, M.m)
    requires |values| == nodes.Length && forall j :: 0 <= j < nodes.Length ==> v < |nodes[j].vars| && values[j] == nodes[j].vars[v]
    modifies bc.entries
    ensures bc.Valid() && bc.Contents() == old(bc.Contents())[i := Subtracted(old(bc.Contents())[i], M.Contents()[i], values, B, |B|)]
  {
    ghost var c0, row := bc.Contents(), M.Contents()[i];
    for n := 0 to |B|
      invariant bc.Valid() && bc.Contents() == c0[i := Subtracted(c0[i], row, values, B, n)]
    {
      var j := B[n];
      var current := bc.Get(i);
      var entry := M.Get(i, j);
      var value := nodes[j].vars[v];
      assert entry == row[j] && value == values[j];
      assert current - entry * value == Subtracted(c0[i], row, values, B, n + 1);
      bc.Set(i, current - entry * value);
    }
  }

  /**
   * `constructEssentialBoundaryVector2D(fem1, fem2, v, M)`: a vector of
   * length fem1.Ng whose entry i is 0 minus M[i][j] times unknown v of
   * fem2's node j, subtracted over fem2's boundary list in order.
   */
  method EssentialBoundaryVectorPair(fem1: FEM2D, fem2: FEM2D, varIndex: int, massMatrix: Matrix) returns (bc: Vector)
    requires fem1.Valid() && fem2.Valid() && 0 <= varIndex < fem2.N
    requires massMatrix.Valid() && massMatrix.n >= fem1.Ng && massMatrix.m >= fem2.Ng
    ensures IndicesBelow(fem2.boundaryIndices, fem2.Ng) && forall j :: 0 <= j < fem2.Ng ==> varIndex < |fem2.FENodes[j].vars|
    ensures fresh(bc) && fresh(bc.entries) && bc.Valid() && bc.n == fem1.Ng
    ensures bc.Contents() == EssentialVector(massMatrix.Contents(), Unknowns(fem2.FENodes[..], varIndex), fem2.boundaryIndices, fem1.Ng)
  {
    SpaceFacts(fem2);
    ghost var values := Unknowns(fem2.FENodes[..], varIndex);
    ghost var target := EssentialVector(massMatrix.Contents(), values, fem2.boundaryIndices, fem1.Ng);
    bc := new Vector(fem1.Ng);
    assert bc.Contents() == Filled(target, 0);
    for i := 0 to fem1.Ng
      invariant fresh(bc.entries) && bc.Valid() && bc.n == fem1.Ng
      invariant bc.Contents() == Filled(target, i)
    {
      FilledStep(target, i);
      SubtractBoundaryColumns(bc, massMatrix, fem2.FENodes, fem2.boundaryIndices, varIndex, i, values);
    }
    assert bc.Contents() == target;
  }

  /** `constructEssentialBoundaryVector2D(fem, v, M)`: the pair routine with the same space on both sides. */
  method EssentialBoundaryVector2D(fem: FEM2D, varIndex: int, massMatrix: Matrix) returns (bc: Vector)
    requires fem.Valid() && 0 <= varIndex < fem.N
    requires massMatrix.Valid() && massMatrix.n >= fem.Ng && massMatrix.m >= fem.Ng
    ensures IndicesBelow(fem.boundaryIndices, fem.Ng) && forall j :: 0 <= j < fem.Ng ==> varIndex < |fem.FENodes[j].vars|
    ensures fresh(bc) && fresh(bc.entries) && bc.Valid() && bc.n == fem.Ng
    ensures bc.Contents() == EssentialVector(massMatrix.Contents(), Unknowns(fem.FENodes[..], varIndex), fem.boundaryIndices, fem.Ng)
  {
    bc := EssentialBoundaryVectorPair(fem, fem, varIndex, massMatrix);
  }

  // ---------------------------------------------------------------------
  // The natural boundary vector

  /** The vertex pairs of an element, in the order the loops visit them: (0, 1), (0, 2), (1, 2). */
  function VertexPair(q: int): (ab: (int, int))
    requires 0 <= q < 3
    ensures 0 <= ab.0 < ab.1 < 3
  {
    if q == 0 then (0, 1) else if q == 1 then (0, 2) else (1, 2)
  }

  /** The edge between vertices a and b of element K; -1 unless it is a boundary edge with a natural end. */
  function NaturalEdge(m: Mesh2D, K: int, a: int, b: int): (e: int)
    requires m.Valid() && 0 <= K < m.size && 0 <= a < 3 && 0 <= b < 3 && a != b
    ensures -1 <= e < m.numEdges
  {
    var I, J := m.connectivity[K][a], m.connectivity[K][b];
    if m.edgeTypeMatrix[I][J] != 1 then -1
    else
      var e := m.edgeMatrix[I][J] - 1;
      if m.meshNodes[m.edgeArray[e][0]].bc == Natural || m.meshNodes[m.edgeArray[e][1]].bc == Natural then e else -1
  }

  /** Every boundary edge between two vertices of an element has two boundary-tagged ends. */
  predicate BoundaryEdgesTagged(m: Mesh2D)
    requires m.Valid()
  {
    forall K, a, b :: 0 <= K < m.size && 0 <= a < b < 3 && m.edgeTypeMatrix[m.connectivity[K][a]][m.connectivity[K][b]] == 1 ==>
      var e := m.edgeMatrix[m.connectivity[K][a]][m.connectivity[K][b]] - 1;
      m.meshNodes[m.edgeArray[e][0]].bc != Interior && m.meshNodes[m.edgeArray[e][1]].bc != Interior
  }

  /** The local integrator of element K along edge e: the j-th entry is the edge integral of shape function j. */
  function EdgeIntegrator(edgeLocal: (int, int, int) -> real, e: int): (int, int) -> real
  {
    (K, j) => edgeLocal(K, e, j)
  }

  /** Element K's contributions from its first q vertex pairs, added to b. */
  function NaturalPairs(b: seq<real>, m: Mesh2D, row: seq<int>, K: int, edgeLocal: (int, int, int) -> real, q: nat): (r: seq<real>)
    requires m.Valid() && 0 <= K < m.size && q <= 3 && RowFits(row, |b|)
    ensures |r| == |b|
  {
    if q == 0 then b
    else
      var c := NaturalPairs(b, m, row, K, edgeLocal, q - 1);
      var e := NaturalEdge(m, K, VertexPair(q - 1).0, VertexPair(q - 1).1);
      if e < 0 then c else LoadElement(c, row, K, EdgeIntegrator(edgeLocal, e), |row|)
  }

  /** The natural vector after elements 0..k-1. */
  function NaturalUpTo(Ng: nat, m: Mesh2D, rows: seq<seq<int>>, w: nat, edgeLocal: (int, int, int) -> real, k: nat): (b: seq<real>)
    requires m.Valid() && TableFits(rows, w, Ng) && |rows| == m.size && k <= m.size
    ensures |b| == Ng
  {
    if k == 0 then Zeros(Ng)
    else NaturalPairs(NaturalUpTo(Ng, m, rows, w, edgeLocal, k - 1), m, rows[k - 1], k - 1, edgeLocal, 3)
  }

  /** Element K has a boundary edge with a natural end. */
  predicate HasNaturalEdge(m: Mesh2D, K: int)
    requires m.Valid() && 0 <= K < m.size
  {
    NaturalEdge(m, K, 0, 1) >= 0 || NaturalEdge(m, K, 0, 2) >= 0 || NaturalEdge(m, K, 1, 2) >= 0
  }

  /** An element's pass leaves a DOF alone when the element has no natural edge or does not name the DOF. */
  lemma {:induction false} NaturalPairsUntouched(b: seq<real>, m: Mesh2D, row: seq<int>, K: int, edgeLocal: (int, int, int) -> real, q: nat, I: int)
    requires m.Valid() && 0 <= K < m.size && q <= 3 && RowFits(row, |b|) && 0 <= I < |b|
    requires !HasNaturalEdge(m, K) || forall j :: 0 <= j < |row| ==> row[j] != I
    ensures NaturalPairs(b, m, row, K, edgeLocal, q)[I] == b[I]
  {
    if q > 0 {
      NaturalPairsUntouched(b, m, row, K, edgeLocal, q - 1, I);
      var c := NaturalPairs(b, m, row, K, edgeLocal, q - 1);
      var e := NaturalEdge(m, K, VertexPair(q - 1).0, VertexPair(q - 1).1);
      if e >= 0 {
        LoadElementEntry(c, row, K, EdgeIntegrator(edgeLocal, e), |row|, I);
        ElementShareAbsent(row, K, EdgeIntegrator(edgeLocal, e), I, |row|);
      }
    }
  }

  /**
   * Only elements with a natural boundary edge contribute: a DOF that no
   * such element names keeps 0.
   */
  lemma {:induction false} NaturalSupport(Ng: nat, m: Mesh2D, rows: seq<seq<int>>, w: nat, edgeLocal: (int, int, int) -> real, k: nat, I: int)
    requires m.Valid() && TableFits(rows, w, Ng) && |rows| == m.size && k <= m.size && 0 <= I < Ng
    requires forall K, j :: 0 <= K < k && HasNaturalEdge(m, K) && 0 <= j < w ==> rows[K][j] != I
    ensures NaturalUpTo(Ng, m, rows, w, edgeLocal, k)[I] == 0.0
  {
    if k > 0 {
      NaturalSupport(Ng, m, rows, w, edgeLocal, k - 1, I);
      NaturalPairsUntouched(NaturalUpTo(Ng, m, rows, w, edgeLocal, k - 1), m, rows[k - 1], k - 1, edgeLocal, 3, I);
    }
  }

  /** The number of vertex pairs visited before the inner loop starts at vertex a. */
  function PairsBefore(a: int): nat
  {
    if a <= 0 then 0 else if a == 1 then 2 else 3
  }

  /** One pass of the inner loop: vertices a and b of element K, scattered when they bound a natural edge. */
  method NaturalPairStep(bc: Vector, m: Mesh2D, K: int, row: seq<int>, edgeLocal: (int, int, int) -> real, a: int, b: int)
    requires m.Valid() && BoundaryEdgesTagged(m) && 0 <= K < m.size && 0 <= a < b < 3
    requires bc.Valid() && RowFits(row, bc.n)
    modifies bc.entries
    ensures bc.Valid() && var e := NaturalEdge(m, K, a, b);
      bc.Contents() == if e < 0 then old(bc.Contents()) else LoadElement(old(bc.Contents()), row, K, EdgeIntegrator(edgeLocal, e), |row|)
  {
    var I, J := m.connectivity[K][a], m.connectivity[K][b];
    if m.edgeTypeMatrix[I][J] == 1 {
      var e := m.edgeMatrix[I][J] - 1;
      var A1, A2 := m.meshNodes[m.edgeArray[e][0]], m.meshNodes[m.edgeArray[e][1]];
      assert A1.bc != Interior && A2.bc != Interior;
      if A1.bc == Natural || A2.bc == Natural {
        ScatterLoad(bc, row, K, EdgeIntegrator(edgeLocal, e));
      }
    }
  }

  /** The pair loops of `constructNaturalBoundaryVector2D` for element K. */
  method NaturalElement2D(bc: Vector, m: Mesh2D, K: int, row: seq<int>, edgeLocal: (int, int, int) -> real)
    requires m.Valid() && BoundaryEdgesTagged(m) && 0 <= K < m.size
    requires bc.Valid() && RowFits(row, bc.n)
    modifies bc.entries
    ensures bc.Valid() && bc.Contents() == NaturalPairs(old(bc.Contents()), m, row, K, edgeLocal, 3)
  {
    ghost var b0 := bc.Contents();
    for a := 0 to 3
      invariant bc.Valid() && bc.Contents() == NaturalPairs(b0, m, row, K, edgeLocal, PairsBefore(a))
    {
      for b := a + 1 to 3
        invariant bc.Valid() && bc.Contents() == NaturalPairs(b0, m, row, K, edgeLocal, PairsBefore(a) + (b - a - 1))
      {
        ghost var q: nat := PairsBefore(a) + (b - a - 1);
        assert q < 3 && VertexPair(q) == (a, b);
        NaturalPairStep(bc, m, K, row, edgeLocal, a, b);
      }
    }
  }

  /** The element loop of `constructNaturalBoundaryVector2D`, over the connectivity rows. */
  method AssembleNatural(bc: Vector, m: Mesh2D, rows: seq<seq<int>>, w: nat, edgeLocal: (int, int, int) -> real)
    requires m.Valid() && BoundaryEdgesTagged(m) && |rows| == m.size
    requires bc.Valid() && bc.Contents() == Zeros(bc.n) && TableFits(rows, w, bc.n)
    modifies bc.entries
    ensures bc.Valid() && bc.Contents() == NaturalUpTo(bc.n, m, rows, w, edgeLocal, m.size)
  {
    for K := 0 to m.size
      invariant bc.Valid() && bc.Contents() == NaturalUpTo(bc.n, m, rows, w, edgeLocal, K)
    {
      NaturalElement2D(bc, m, K, rows[K], edgeLocal);
    }
  }

  /**
   * `constructNaturalBoundaryVector2D`: a vector of length Ng built element
   * by element; the source asserts that every boundary edge of an element
   * joins two boundary-tagged vertices.
   */
  method NaturalBoundaryVector2D(fem: FEM2D, edgeLocal: (int, int, int) -> real) returns (bc: Vector)
    requires fem.Valid() && BoundaryEdgesTagged(fem.mesh)
    ensures fresh(bc) && fresh(bc.entries) && bc.Valid() && bc.n == fem.Ng
    ensures bc.Contents() == NaturalUpTo(fem.Ng, fem.mesh, Table(fem.mesh, fem.polynomialOrder), RowWidth(fem.polynomialOrder), edgeLocal, fem.mesh.size)
  {
    bc := new Vector(fem.Ng);
    AssembleNatural(bc, fem.mesh, Table(fem.mesh, fem.polynomialOrder), RowWidth(fem.polynomialOrder), edgeLocal);
  }
}
