/**
 * The one-dimensional assembly routines and the L2 projection
 * (L2Projection.cpp): FE_LoadVector1D scatters each element's local inner
 * products into a vector of length Ng, FE_MassMatrix1D scatters each
 * element's local pairs into an Ng-by-Ng matrix, and L2_Projection solves
 * M c = b and writes c[fem[K][j]] into the nodal value of every node.
 * The local inner products are the given element integrators; the overloads
 * that differ only in the coefficient or the derivative orders are choices
 * of integrator.
 */
module Projection1D {
  import opened Vectors
  import opened Matrices
  import opened Assembly
  import opened FiniteElements1D

  /** The 1D table has rows of p + 1 DOFs, all below size p + 1. */
  lemma ConnectivityFits(size: nat, p: nat)
    requires p > 0
    ensures TableFits(Connectivity(size, p), p + 1, size * p + 1)
  {
    forall K | 0 <= K < size
      ensures forall j :: 0 <= j < p + 1 ==> 0 <= Connectivity(size, p)[K][j] < size * p + 1
    {
      forall j | 0 <= j < p + 1
        ensures 0 <= Connectivity(size, p)[K][j] < size * p + 1
      {
        ConnectivityBounds(size, p, K, j);
      }
    }
  }

  /** The assembled 1D mass matrix: every element's local pairs scattered into an Ng-by-Ng zero matrix. */
  function Mass1D(size: nat, p: nat, local: (int, int, int) -> real): (M: Mat)
    requires p > 0
    ensures IsShape(M, size * p + 1, size * p + 1)
  {
    ConnectivityFits(size, p);
    MassUpTo(size * p + 1, size * p + 1, Connectivity(size, p), Connectivity(size, p), p + 1, p + 1, local, size)
  }

  /** The assembled 1D load vector: every element's local products scattered into a zero vector of length Ng. */
  function Load1D(size: nat, p: nat, local: (int, int) -> real): (b: seq<real>)
    requires p > 0
    ensures |b| == size * p + 1
  {
    ConnectivityFits(size, p);
    LoadUpTo(size * p + 1, Connectivity(size, p), p + 1, local, size)
  }

  /**
   * Two DOFs more than p apart never sit in one element, so their mass
   * entry stays zero: the 1D mass matrix is banded with half-width p.
   */
  lemma MassBanded(size: nat, p: nat, local: (int, int, int) -> real, I: int, J: int)
    requires p > 0 && 0 <= I < size * p + 1 && 0 <= J < size * p + 1 && (I - J > p || J - I > p)
    ensures Mass1D(size, p, local)[I][J] == 0.0
  {
    var rows := Connectivity(size, p);
    ConnectivityFits(size, p);
    forall K, i, j | 0 <= K < size && 0 <= i < p + 1 && 0 <= j < p + 1
      ensures !(rows[K][i] == I && rows[K][j] == J)
    {
      assert rows[K][i] - rows[K][j] == i - j;
    }
    MassUnshared(size * p + 1, size * p + 1, rows, rows, p + 1, p + 1, local, size, I, J);
  }

  /** With a symmetric integrator the 1D mass matrix is symmetric. */
  lemma MassSymmetric1D(size: nat, p: nat, local: (int, int, int) -> real, I: int, J: int)
    requires p > 0 && 0 <= I < size * p + 1 && 0 <= J < size * p + 1 && SymmetricIntegrator(local, size, p + 1)
    ensures Mass1D(size, p, local)[I][J] == Mass1D(size, p, local)[J][I]
  {
    ConnectivityFits(size, p);
    MassSymmetric(size * p + 1, Connectivity(size, p), p + 1, local, size, I, J);
  }

  /** Every DOF of a 1D space lies in some element: DOF I <= k p is in one of the first k rows. */
  lemma {:induction false} CoveredUpTo(size: nat, p: nat, k: nat, I: int)
    requires p > 0 && 1 <= k <= size && 0 <= I <= k * p
    ensures TableFits(Connectivity(size, p), p + 1, size * p + 1)
    ensures Covered(Connectivity(size, p), p + 1, k, I)
  {
    var rows := Connectivity(size, p);
    ConnectivityFits(size, p);
    assert k * p == (k - 1) * p + p;
    if I >= (k - 1) * p {
      var j := I - (k - 1) * p;
      assert rows[k - 1][j] == I;
      InRowOf(rows[k - 1], p + 1, j);
    } else {
      CoveredUpTo(size, p, k - 1, I);
    }
  }

  /** Every DOF of a 1D space on a nonempty mesh belongs to some element. */
  lemma AllCovered(size: nat, p: nat, w: nat)
    requires p > 0 && size >= 1 && w == p + 1
    ensures TableFits(Connectivity(size, p), w, size * p + 1)
    ensures forall I :: 0 <= I < size * p + 1 ==> Covered(Connectivity(size, p), w, size, I)
  {
    ConnectivityFits(size, p);
    forall I | 0 <= I < size * p + 1
      ensures Covered(Connectivity(size, p), w, size, I)
    {
      CoveredUpTo(size, p, size, I);
    }
  }

  /** `FE_LoadVector1D`: element by element, b[fem[K][j]] += the j-th local inner product. */
  method LoadVector1D(fem: FEM1D, local: (int, int) -> real) returns (b: Vector)
    requires fem.Valid()
    ensures fresh(b) && fresh(b.entries) && b.Valid() && b.n == fem.Ng
    ensures b.Contents() == Load1D(fem.meshSize, fem.polynomialOrder, local)
  {
    ConnectivityFits(fem.meshSize, fem.polynomialOrder);
    b := new Vector(fem.Ng);
    AssembleLoad(b, fem.connectivity, fem.polynomialOrder + 1, local);
  }

  /** `FE_MassMatrix1D`: element by element, M[fem[K][i]][fem[K][j]] += the (i, j) local inner product. */
  method MassMatrix1D(fem: FEM1D, local: (int, int, int) -> real) returns (M: Matrix)
    requires fem.Valid()
    ensures fresh(M) && fresh(M.entries) && M.Valid() && M.n == M.m == fem.Ng
    ensures M.Contents() == Mass1D(fem.meshSize, fem.polynomialOrder, local)
  {
    ConnectivityFits(fem.meshSize, fem.polynomialOrder);
    M := new Matrix.Square(fem.Ng);
    var rows := fem.connectivity;
    AssembleMass(M, rows, rows, fem.polynomialOrder + 1, fem.polynomialOrder + 1, local);
  }

  /** The nodes after writing back c over the first k rows: the nodes those rows name carry their coefficient, the rest are unchanged. */
  ghost predicate WrittenBack(before: seq<FENode1D>, after: seq<FENode1D>, rows: seq<seq<int>>, w: nat, k: nat, c: seq<real>)
    requires k <= |rows| && forall K :: 0 <= K < |rows| ==> |rows[K]| == w
  {
    |after| == |before| && |c| == |before| &&
    forall I :: 0 <= I < |before| ==> after[I] == if Covered(rows, w, k, I) then before[I].(u := c[I]) else before[I]
  }

  /** The inner write-back loop for element K: fem(K, j).u = c[fem[K][j]] for every local node j. */
  method WriteBackElement1D(fem: FEM1D, c: Vector, K: int)
    requires fem.Valid() && c.Valid() && c.n == fem.Ng && 0 <= K < fem.meshSize
    modifies fem.FENodes
    ensures fem.Valid()
    ensures forall I :: 0 <= I < fem.Ng ==>
      fem.FENodes[I] == if InRow(fem.connectivity[K], fem.polynomialOrder + 1, I) then old(fem.FENodes[I]).(u := c.Contents()[I]) else old(fem.FENodes[I])
  {
    var row := fem.connectivity[K];
    for j := 0 to fem.polynomialOrder + 1
      invariant fem.Valid()
      invariant forall I :: 0 <= I < fem.Ng ==>
        fem.FENodes[I] == if InRow(row, j, I) then old(fem.FENodes[I]).(u := c.Contents()[I]) else old(fem.FENodes[I])
    {
      var value := c.Get(row[j]);
      fem.SetU(K, j, value);
    }
  }

  /** The write-back loop of `L2_Projection`: fem(K, j).u = c[fem[K][j]] for every element and local node. */
  method WriteBack1D(fem: FEM1D, c: Vector)
    requires fem.Valid() && c.Valid() && c.n == fem.Ng
    modifies fem.FENodes
    ensures fem.Valid() && TableFits(fem.connectivity, fem.polynomialOrder + 1, fem.Ng)
    ensures WrittenBack(old(fem.FENodes[..]), fem.FENodes[..], fem.connectivity, fem.polynomialOrder + 1, fem.meshSize, c.Contents())
  {
    ConnectivityFits(fem.meshSize, fem.polynomialOrder);
    var rows, w := fem.connectivity, fem.polynomialOrder + 1;
    ghost var before := fem.FENodes[..];
    for K := 0 to fem.meshSize
      invariant fem.Valid()
      invariant WrittenBack(before, fem.FENodes[..], rows, w, K, c.Contents())
    {
      WriteBackElement1D(fem, c, K);
    }
  }

  /**
   * `L2_Projection`: the coefficients solve M c = b for the assembled mass
   * matrix and load vector, and every node's value becomes its coefficient;
   * coordinates and tags stay. The solve needs nonzero pivots.
   */
  method L2Projection(fem: FEM1D, load: (int, int) -> real, mass: (int, int, int) -> real)
    requires fem.Valid() && NonzeroPivots(Mass1D(fem.meshSize, fem.polynomialOrder, mass))
    modifies fem.FENodes
    ensures fem.Valid()
    ensures var x := LUSolution(Mass1D(fem.meshSize, fem.polynomialOrder, mass), Load1D(fem.meshSize, fem.polynomialOrder, load));
      |x| == fem.Ng && forall I :: 0 <= I < fem.Ng ==> fem.FENodes[I] == old(fem.FENodes[I]).(u := x[I])
  {
    var coefficients := ProjectionCoefficients(fem, load, mass);
    WriteBack1D(fem, coefficients);
    AllCovered(fem.meshSize, fem.polynomialOrder, fem.polynomialOrder + 1);
  }

  /** The first three lines of `L2_Projection`: assemble M and b, then solve M c = b. */
  method ProjectionCoefficients(fem: FEM1D, load: (int, int) -> real, mass: (int, int, int) -> real) returns (c: Vector)
    requires fem.Valid() && NonzeroPivots(Mass1D(fem.meshSize, fem.polynomialOrder, mass))
    ensures fresh(c) && fresh(c.entries) && c.Valid() && c.n == fem.Ng
    ensures c.Contents() == LUSolution(Mass1D(fem.meshSize, fem.polynomialOrder, mass), Load1D(fem.meshSize, fem.polynomialOrder, load))
  {
    var M := MassMatrix1D(fem, mass);
    var b := LoadVector1D(fem, load);
    c := Solve(M, b);
  }
}
