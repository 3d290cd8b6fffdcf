/**
 * The boundary vectors of the one-dimensional equation systems
 * (EquationSytem1D.cpp). Both routines walk the elements and their local
 * nodes, skipping the last local node of every element but the last so that
 * a vertex shared by two elements is visited once. The natural vector holds
 * the natural boundary data at natural nodes, with the sign flipped at the
 * left end; the essential vector holds, per DOF, minus the mass-matrix row
 * times the prescribed values at the constrained DOFs.
 */
module EquationSystem1D {
  import opened Boundary
  import opened Vectors
  import opened Matrices
  import opened Mesh1D
  import opened Elimination
  import opened Numbering
  import opened Assembly
  import opened FiniteElements1D

  /** Local node j of element K is visited: all local nodes of the last element, all but the last of the others. */
  predicate Visits(size: nat, p: nat, K: nat, j: nat)
  {
    j < p || (j == p && K == size - 1)
  }

  /** No DOF is visited twice: distinct visited local nodes name distinct DOFs. */
  lemma VisitedOnce(size: nat, p: nat, K1: nat, j1: nat, K2: nat, j2: nat)
    requires p > 0 && K1 < size && K2 < size && Visits(size, p, K1, j1) && Visits(size, p, K2, j2)
    requires Row(K1, p)[j1] == Row(K2, p)[j2]
    ensures K1 == K2 && j1 == j2
  {
    if K1 < K2 {
      BlockOrder(K1, K2, p);
    } else if K2 < K1 {
      BlockOrder(K2, K1, p);
    }
  }

  /** Every DOF is visited: DOF I is local node j of element K for a visited pair. */
  lemma EveryDofVisited(size: nat, p: nat, I: int) returns (K: nat, j: nat)
    requires p > 0 && size > 0 && 0 <= I < size * p + 1
    ensures K < size && Visits(size, p, K, j) && Row(K, p)[j] == I
  {
    if I == size * p {
      K, j := size - 1, p;
      assert (size - 1) * p + p == size * p;
    } else {
      BlockRange(size, p, I);
      K, j := I / p, I % p;
      assert I == K * p + j;
    }
  }

  // ---------------------------------------------------------------------
  // The natural boundary vector

  /** The entry of a node: the natural data at a natural node, negated at the left end; 0 at any other node. */
  function NaturalValue(node: FENode1D, xL: real, g: real -> real): real
  {
    if node.bc != Natural then 0.0
    else if node.x == xL then g(node.x) * -1.0
    else g(node.x)
  }

  /** The number of local nodes of element K the loops visit. */
  function Visited(size: nat, p: nat, K: nat): nat
  {
    if K == size - 1 then p + 1 else p
  }

  /**
   * One pass of the element loop: the local nodes of element K that are
   * visited name DOFs start .. start + Visited - 1, in order.
   */
  lemma ElementVisit(size: nat, p: nat, K: nat, start: int, j: nat)
    requires p > 0 && K < size && start == K * p && Visits(size, p, K, j)
    ensures Row(K, p)[j] == start + j && start + j < size * p + 1
    ensures start + Visited(size, p, K) == if K == size - 1 then size * p + 1 else (K + 1) * p
  {
    BlockOrder(K, size, p);
    assert K * p + p == (K + 1) * p;
  }

  /** The visit of one node: a natural node gets the data at its coordinate, negated at the left end. */
  method WriteNatural(bc: Vector, node: FENode1D, d: int, xL: real, naturalBC: real -> real)
    requires bc.Valid() && 0 <= d < bc.n && bc.Contents()[d] == 0.0
    modifies bc.entries
    ensures bc.Valid() && bc.Contents() == old(bc.Contents())[d := NaturalValue(node, xL, naturalBC)]
  {
    if node.bc == Natural {
      var value := naturalBC(node.x);
      bc.Set(d, value);
      if node.x == xL {
        var current := bc.Get(d);
        bc.Set(d, current * -1.0);
      }
    }
  }

  /** The inner loop of `constructNaturalBoundaryVector` for element K. */
  method NaturalElement(bc: Vector, fem: FEM1D, naturalBC: real -> real, K: nat, ghost start: int, ghost target: seq<real>)
    requires fem.Valid() && bc.Valid() && bc.n == fem.Ng && K < fem.meshSize && start == K * fem.polynomialOrder
    requires |target| == fem.Ng && forall I :: 0 <= I < fem.Ng ==> target[I] == NaturalValue(fem.FENodes[I], fem.mesh.xL, naturalBC)
    requires bc.Contents() == Filled(target, start)
    modifies bc.entries
    ensures bc.Valid() && bc.Contents() == Filled(target, start + Visited(fem.meshSize, fem.polynomialOrder, K))
  {
    var p, size := fem.polynomialOrder, fem.meshSize;
    var j := 0;
    while j < p + 1
      invariant 0 <= j <= p + 1 && (K != size - 1 ==> j != p)
      invariant bc.Valid() && bc.Contents() == Filled(target, start + if j > p then Visited(size, p, K) else j)
    {
      ElementVisit(size, p, K, start, j);
      var node := fem.NodeAt(K, j);
      var d := fem.connectivity[K][j];
      FilledStep(target, d);
      WriteNatural(bc, node, d, fem.mesh.xL, naturalBC);
      if K != size - 1 && j == p - 1 {
        j := j + 1;
      }
      j := j + 1;
    }
  }

  /**
   * `constructNaturalBoundaryVector`: a vector of length Ng whose entry at
   * each DOF is that DOF's natural value; the skip makes each DOF written once.
   */
  method NaturalBoundaryVector(fem: FEM1D, naturalBC: real -> real) returns (bc: Vector)
    requires fem.Valid()
    ensures fresh(bc) && fresh(bc.entries) && bc.Valid() && bc.n == fem.Ng
    ensures forall I :: 0 <= I < fem.Ng ==> bc.Contents()[I] == NaturalValue(fem.FENodes[I], fem.mesh.xL, naturalBC)
  {
    ghost var nodes := fem.FENodes[..];
    ghost var target := seq(fem.Ng, I requires 0 <= I < fem.Ng => NaturalValue(nodes[I], fem.mesh.xL, naturalBC));
    bc := new Vector(fem.Ng);
    assert bc.Contents() == Filled(target, 0);
    var p, size := fem.polynomialOrder, fem.meshSize;
    ghost var start := 0;
    for K := 0 to size
      invariant fresh(bc.entries) && bc.Valid() && bc.n == fem.Ng && start == K * p
      invariant bc.Contents() == Filled(target, if K == size then fem.Ng else start)
    {
      ElementVisit(size, p, K, start, 0);
      NaturalElement(bc, fem, naturalBC, K, start, target);
      start := start + p;
    }
    assert bc.Contents() == target;
  }

  // ---------------------------------------------------------------------
  // The essential boundary vector

  /** The nodal values of the nodes, in order. */
  function Values(nodes: seq<FENode1D>): (us: seq<real>)
    ensures |us| == |nodes| && forall i :: 0 <= i < |nodes| ==> us[i] == nodes[i].u
  {
    seq(|nodes|, i requires 0 <= i < |nodes| => nodes[i].u)
  }

  /** The boundary list of a valid 1D space names DOFs of the space. */
  lemma BoundaryIndicesInRange(fem: FEM1D)
    requires fem.Valid()
    ensures IndicesBelow(fem.boundaryIndices, fem.Ng)
  {
    BoundaryListSound(fem.vertices, fem.polynomialOrder);
  }

  /** The inner loop of `constructEssentialBoundaryVector`: bc[d] -= M[d][i] u_i over the boundary list. */
  method SubtractBoundaryTerms(bc: Vector, M: Matrix, nodes: array<FENode1D>, B: seq<int>, d: int)
    requires bc.Valid() && M.Valid() && 0 <= d < bc.n && d < M.n
    requires IndicesBelow(B, nodes.Length) && IndicesBelow(B, M.m)
    modifies bc.entries
    ensures bc.Valid() && bc.Contents() == old(bc.Contents())[d := Subtracted(old(bc.Contents())[d], M.Contents()[d], Values(nodes[..]), B, |B|)]
  {
    ghost var c0, row := bc.Contents(), M.Contents()[d];
    for n := 0 to |B|
      invariant bc.Valid() && bc.Contents() == c0[d := Subtracted(c0[d], row, Values(nodes[..]), B, n)]
    {
      var i := B[n];
      var current := bc.Get(d);
      var entry := M.Get(d, i);
      var value := nodes[i].u;
      assert entry == row[i] && value == Values(nodes[..])[i];
      assert current == Subtracted(c0[d], row, Values(nodes[..]), B, n);
      assert current - entry * value == Subtracted(c0[d], row, Values(nodes[..]), B, n + 1);
      bc.Set(d, current - entry * value);
    }
  }

  /** The inner loop of `constructEssentialBoundaryVector` for element K. */
  method EssentialElement(bc: Vector, fem: FEM1D, massMatrix: Matrix, K: nat, ghost start: int, ghost target: seq<real>)
    requires fem.Valid() && bc.Valid() && bc.n == fem.Ng && K < fem.meshSize && start == K * fem.polynomialOrder
    requires massMatrix.Valid() && massMatrix.n == fem.Ng && massMatrix.m == fem.Ng
    requires IndicesBelow(fem.boundaryIndices, fem.Ng)
    requires |target| == fem.Ng && forall I :: 0 <= I < fem.Ng ==>
      target[I] == Subtracted(0.0, massMatrix.Contents()[I], Values(fem.FENodes[..]), fem.boundaryIndices, |fem.boundaryIndices|)
    requires bc.Contents() == Filled(target, start)
    modifies bc.entries
    ensures bc.Valid() && bc.Contents() == Filled(target, start + Visited(fem.meshSize, fem.polynomialOrder, K))
  {
    var p, size := fem.polynomialOrder, fem.meshSize;
    var j := 0;
    while j < p + 1
      invariant 0 <= j <= p + 1 && (K != size - 1 ==> j != p)
      invariant bc.Valid() && bc.Contents() == Filled(target, start + if j > p then Visited(size, p, K) else j)
    {
      ElementVisit(size, p, K, start, j);
      var d := fem.connectivity[K][j];
      FilledStep(target, d);
      SubtractBoundaryTerms(bc, massMatrix, fem.FENodes, fem.boundaryIndices, d);
      if K != size - 1 && j == p - 1 {
        j := j + 1;
      }
      j := j + 1;
    }
  }

  /**
   * `constructEssentialBoundaryVector`: a vector of length Ng whose entry at
   * each DOF I is 0 minus M[I][i] times the value at DOF i, subtracted over
   * the boundary list in order; the skip makes each DOF visited once.
   */
  method EssentialBoundaryVector(fem: FEM1D, massMatrix: Matrix) returns (bc: Vector)
    requires fem.Valid() && massMatrix.Valid() && massMatrix.n == fem.Ng && massMatrix.m == fem.Ng
    ensures IndicesBelow(fem.boundaryIndices, fem.Ng)
    ensures fresh(bc) && fresh(bc.entries) && bc.Valid() && bc.n == fem.Ng
    ensures forall I :: 0 <= I < fem.Ng ==>
      bc.Contents()[I] == Subtracted(0.0, massMatrix.Contents()[I], Values(fem.FENodes[..]), fem.boundaryIndices, |fem.boundaryIndices|)
  {
    BoundaryIndicesInRange(fem);
    ghost var nodes, M, B := fem.FENodes[..], massMatrix.Contents(), fem.boundaryIndices;
    ghost var target := seq(fem.Ng, I requires 0 <= I < fem.Ng => Subtracted(0.0, M[I], Values(nodes), B, |B|));
    bc := new Vector(fem.Ng);
    assert bc.Contents() == Filled(target, 0);
    var p, size := fem.polynomialOrder, fem.meshSize;
    ghost var start := 0;
    for K := 0 to size
      invariant fresh(bc.entries) && bc.Valid() && bc.n == fem.Ng && start == K * p
      invariant bc.Contents() == Filled(target, if K == size then fem.Ng else start)
    {
      ElementVisit(size, p, K, start, 0);
      EssentialElement(bc, fem, massMatrix, K, start, target);
      start := start + p;
    }
    assert bc.Contents() == target;
  }

  /** With no constrained DOF, or with every prescribed value 0, the essential vector is zero. */
  lemma EssentialVectorVanishes(row: seq<real>, nodes: seq<FENode1D>, B: seq<int>)
    requires forall k :: 0 <= k < |B| ==> 0 <= B[k] < |row| && B[k] < |nodes|
    requires |B| == 0 || forall k :: 0 <= k < |B| ==> nodes[B[k]].u == 0.0
    ensures Subtracted(0.0, row, Values(nodes), B, |B|) == 0.0
  {
    SubtractedHomogeneous(0.0, row, Values(nodes), B, |B|);
  }
}
