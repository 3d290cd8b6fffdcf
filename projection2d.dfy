/**
 * The two-dimensional assembly routines and the L2 projection
 * (L2Projection/L2Projection.h): FE_LoadVector2D, FE_MassMatrix2D on one
 * space or on a pair of spaces over the same mesh, and L2_Projection2D,
 * which solves M c = b and writes c[fem[K][j]] into unknown 0 of every
 * node. The local inner products are the given element integrators.
 */
module Projection2D {
  import opened Vectors
  import opened Matrices
  import opened Assembly
  import opened TriangularMesh
  import opened FiniteElements2D
  import opened FiniteElementMethod2D

  /** The DOF table of a degree-p space on mesh m, row K listing the DOFs of element K. */
  function Table(m: Mesh2D, p: int): (rows: seq<seq<int>>)
    requires m.Valid() && p > 0
    ensures |rows| == m.size && TableFits(rows, RowWidth(p), NumDofs(m, p))
    ensures forall K, j :: 0 <= K < m.size && 0 <= j < RowWidth(p) ==> rows[K][j] == ConnEntry(m, p, K, j)
  {
    LocalLayout(p);
    TableRange(m, p);
    seq(m.size, K requires 0 <= K < m.size => seq(RowWidth(p), j requires 0 <= j < RowWidth(p) => ConnEntry(m, p, K, j)))
  }

  lemma TableRange(m: Mesh2D, p: int)
    requires m.Valid() && p > 0
    ensures forall K, j :: 0 <= K < m.size && 0 <= j < RowWidth(p) ==> 0 <= ConnEntry(m, p, K, j) < NumDofs(m, p)
  {
    forall K, j | 0 <= K < m.size && 0 <= j < RowWidth(p)
      ensures 0 <= ConnEntry(m, p, K, j) < NumDofs(m, p)
    {
      ConnEntryRange(m, p, K, j);
    }
  }

  /** The assembled mass matrix of a pair of degree-p1 and degree-p2 spaces on mesh m. */
  function MassPair(m: Mesh2D, p1: int, p2: int, local: (int, int, int) -> real): (A: Mat)
    requires m.Valid() && p1 > 0 && p2 > 0
    ensures IsShape(A, NumDofs(m, p1), NumDofs(m, p2))
  {
    MassUpTo(NumDofs(m, p1), NumDofs(m, p2), Table(m, p1), Table(m, p2), RowWidth(p1), RowWidth(p2), local, m.size)
  }

  /** The assembled load vector of a degree-p space on mesh m. */
  function Load2D(m: Mesh2D, p: int, local: (int, int) -> real): (b: seq<real>)
    requires m.Valid() && p > 0
    ensures |b| == NumDofs(m, p)
  {
    LoadUpTo(NumDofs(m, p), Table(m, p), RowWidth(p), local, m.size)
  }

  /** `FE_LoadVector2D`: element by element, b[fem[K][j]] += the j-th local inner product. */
  method LoadVector2D(fem: FEM2D, local: (int, int) -> real) returns (b: Vector)
    requires fem.Valid()
    ensures fresh(b) && fresh(b.entries) && b.Valid() && b.n == fem.Ng
    ensures b.Contents() == Load2D(fem.mesh, fem.polynomialOrder, local)
  {
    b := new Vector(fem.Ng);
    AssembleLoad(b, Table(fem.mesh, fem.polynomialOrder), RowWidth(fem.polynomialOrder), local);
  }

  /**
   * `FE_MassMatrix2D(fem1, fem2, ...)`: an fem1.Ng-by-fem2.Ng matrix,
   * element by element A[fem1[K][i]][fem2[K][j]] += the (i, j) local inner
   * product. The two spaces must agree on the mesh's element, node and edge
   * counts; the entries are read off fem2's own mesh.
   */
  method MassMatrixPair(fem1: FEM2D, fem2: FEM2D, local: (int, int, int) -> real) returns (A: Matrix)
    requires fem1.Valid() && fem2.Valid()
    requires fem1.mesh.size == fem2.mesh.size && fem1.mesh.numNodes == fem2.mesh.numNodes
    requires fem1.mesh.numEdges == fem2.mesh.numEdges
    ensures fresh(A) && fresh(A.entries) && A.Valid() && A.n == fem1.Ng && A.m == fem2.Ng
    ensures A.Contents() == MassUpTo(fem1.Ng, fem2.Ng, Table(fem1.mesh, fem1.polynomialOrder), Table(fem2.mesh, fem2.polynomialOrder),
                                     RowWidth(fem1.polynomialOrder), RowWidth(fem2.polynomialOrder), local, fem1.mesh.size)
  {
    A := new Matrix(fem1.Ng, fem2.Ng);
    AssembleMass(A, Table(fem1.mesh, fem1.polynomialOrder), Table(fem2.mesh, fem2.polynomialOrder),
                 RowWidth(fem1.polynomialOrder), RowWidth(fem2.polynomialOrder), local);
  }

  /** `FE_MassMatrix2D(fem, ...)`: the pair routine with the same space on both sides. */
  method MassMatrix2D(fem: FEM2D, local: (int, int, int) -> real) returns (A: Matrix)
    requires fem.Valid()
    ensures fresh(A) && fresh(A.entries) && A.Valid() && A.n == A.m == fem.Ng
    ensures A.Contents() == MassPair(fem.mesh, fem.polynomialOrder, fem.polynomialOrder, local)
  {
    A := MassMatrixPair(fem, fem, local);
  }

  /**
   * The mass matrix of one space with a symmetric integrator is symmetric,
   * and two DOFs that no element holds together get 0.
   */
  lemma MassMatrix2DShape(m: Mesh2D, p: int, local: (int, int, int) -> real, I: int, J: int)
    requires m.Valid() && p > 0 && 0 <= I < NumDofs(m, p) && 0 <= J < NumDofs(m, p)
    ensures var T, w, M := Table(m, p), RowWidth(p), MassPair(m, p, p, local);
      && (SymmetricIntegrator(local, m.size, w) ==> M[I][J] == M[J][I])
      && ((forall K, i, j :: 0 <= K < m.size && 0 <= i < w && 0 <= j < w ==> !(T[K][i] == I && T[K][j] == J)) ==> M[I][J] == 0.0)
  {
    var T, w := Table(m, p), RowWidth(p);
    LocalLayout(p);
    if SymmetricIntegrator(local, m.size, w) {
      MassSymmetric(NumDofs(m, p), T, w, local, m.size, I, J);
    }
    if forall K, i, j :: 0 <= K < m.size && 0 <= i < w && 0 <= j < w ==> !(T[K][i] == I && T[K][j] == J) {
      MassUnshared(NumDofs(m, p), NumDofs(m, p), T, T, w, w, local, m.size, I, J);
    }
  }

  /** Every node of a valid space carries N unknowns. */
  lemma UnknownCounts(fem: FEM2D)
    requires fem.Valid()
    ensures forall I :: 0 <= I < fem.Ng ==> |fem.FENodes[I].vars| == fem.N
  {
    forall I | 0 <= I < fem.Ng
      ensures |fem.FENodes[I].vars| == fem.N
    {
      DofNodeUnknowns(fem.mesh, fem.N, fem.polynomialOrder, I);
    }
  }

  /** The node with unknown 0 set to x. */
  function SetFirst(node: FENode2D, x: real): FENode2D
    requires |node.vars| > 0
  {
    node.(vars := node.vars[0 := x])
  }

  /** The nodes after writing back c over the first k rows: unknown 0 of the nodes those rows name is their coefficient, the rest are unchanged. */
  ghost predicate WrittenBack(before: seq<FENode2D>, after: seq<FENode2D>, rows: seq<seq<int>>, w: nat, k: nat, c: seq<real>)
    requires k <= |rows| && forall K :: 0 <= K < |rows| ==> |rows[K]| == w
  {
    |after| == |before| && |c| == |before| &&
    forall I :: 0 <= I < |before| ==>
      |before[I].vars| > 0 && after[I] == if Covered(rows, w, k, I) then SetFirst(before[I], c[I]) else before[I]
  }

  /** The inner write-back loop for element K: fem(K, j)[0] = c[fem[K][j]] for every local node j. */
  method WriteBackElement2D(fem: FEM2D, c: Vector, K: int, ghost rows: seq<seq<int>>)
    requires fem.Valid() && c.Valid() && c.n == fem.Ng && 0 <= K < fem.mesh.size
    requires rows == Table(fem.mesh, fem.polynomialOrder)
    modifies fem.FENodes
    ensures fem.Valid()
    ensures forall I :: 0 <= I < fem.Ng ==>
      |old(fem.FENodes[I]).vars| > 0 &&
      fem.FENodes[I] == if InRow(rows[K], RowWidth(fem.polynomialOrder), I) then SetFirst(old(fem.FENodes[I]), c.Contents()[I]) else old(fem.FENodes[I])
  {
    UnknownCounts(fem);
    var row := fem.Element(K);
    assert row == rows[K];
    for j := 0 to |row|
      invariant fem.Valid()
      invariant forall I :: 0 <= I < fem.Ng ==>
        fem.FENodes[I] == if InRow(row, j, I) then SetFirst(old(fem.FENodes[I]), c.Contents()[I]) else old(fem.FENodes[I])
    {
      var value := c.Get(row[j]);
      fem.SetVariable(K, j, 0, value);
    }
  }

  /** The write-back loop of `L2_Projection2D`: fem(K, j)[0] = c[fem[K][j]] for every element and local node. */
  method WriteBack2D(fem: FEM2D, c: Vector)
    requires fem.Valid() && c.Valid() && c.n == fem.Ng
    modifies fem.FENodes
    ensures fem.Valid()
    ensures WrittenBack(old(fem.FENodes[..]), fem.FENodes[..], Table(fem.mesh, fem.polynomialOrder), RowWidth(fem.polynomialOrder),
                        fem.mesh.size, c.Contents())
  {
    var rows, w := Table(fem.mesh, fem.polynomialOrder), RowWidth(fem.polynomialOrder);
    ghost var before := fem.FENodes[..];
    UnknownCounts(fem);
    for K := 0 to fem.mesh.size
      invariant fem.Valid()
      invariant WrittenBack(before, fem.FENodes[..], rows, w, K, c.Contents())
    {
      WriteBackElement2D(fem, c, K, rows);
    }
  }

  /** The first three lines of `L2_Projection2D`: assemble M and b with unit coefficient, then solve M c = b. */
  method ProjectionCoefficients2D(fem: FEM2D, load: (int, int) -> real, mass: (int, int, int) -> real) returns (c: Vector)
    requires fem.Valid() && fem.Ng >= 1
    requires NonzeroPivots(MassPair(fem.mesh, fem.polynomialOrder, fem.polynomialOrder, mass))
    ensures fresh(c) && fresh(c.entries) && c.Valid() && c.n == fem.Ng
    ensures c.Contents() == LUSolution(MassPair(fem.mesh, fem.polynomialOrder, fem.polynomialOrder, mass), Load2D(fem.mesh, fem.polynomialOrder, load))
  {
    var M := MassMatrix2D(fem, mass);
    var b := LoadVector2D(fem, load);
    c := Solve(M, b);
  }

  /**
   * `L2_Projection2D`: the coefficients solve M c = b for the mass matrix
   * and the load vector, and unknown 0 of every node an element names
   * becomes its coefficient. The solve needs a nonempty system with nonzero pivots.
   */
  method L2Projection2D(fem: FEM2D, load: (int, int) -> real, mass: (int, int, int) -> real)
    requires fem.Valid() && fem.Ng >= 1
    requires NonzeroPivots(MassPair(fem.mesh, fem.polynomialOrder, fem.polynomialOrder, mass))
    modifies fem.FENodes
    ensures fem.Valid()
    ensures WrittenBack(old(fem.FENodes[..]), fem.FENodes[..], Table(fem.mesh, fem.polynomialOrder), RowWidth(fem.polynomialOrder),
                        fem.mesh.size, LUSolution(MassPair(fem.mesh, fem.polynomialOrder, fem.polynomialOrder, mass),
                                                  Load2D(fem.mesh, fem.polynomialOrder, load)))
  {
    var coefficients := ProjectionCoefficients2D(fem, load, mass);
    WriteBack2D(fem, coefficients);
  }
}
