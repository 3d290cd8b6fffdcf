/**
 * The two-dimensional elliptic problem -div(a grad u) + b . grad u + c u = f
 * (EquationSystems/2D/Elliptic2DABCF.cpp). Its solve step assembles five
 * matrices (a with the x and y derivative pairs, b with the value against the
 * x and y derivatives, c with values), the load of f, the natural boundary
 * vector and one essential vector per matrix; removes the constrained rows,
 * columns and entries from each of the twelve; solves the summed system; and
 * puts a zero back at every constrained DOF. Its update writes the result
 * into unknown 0 of the space. The quadrature of a, b, c, f and the natural
 * condition is represented by the local integrators it yields.
 */
module EllipticSolver2D {
  import opened Vectors
  import opened Matrices
  import opened Elimination
  import opened Assembly
  import opened TriangularMesh
  import opened FiniteElements2D
  import opened FiniteElementMethod2D
  import opened Projection2D
  import opened EquationSystem2D
  import opened LegacyElliptic

  /**
   * The local integrals of the problem's coefficients: the element matrices
   * of a (x and y derivatives), of b (value against x and y derivatives) and
   * of c, the element load of f, and the edge integrals of the natural
   * condition.
   */
  datatype EllipticTerms = EllipticTerms(
    diffusionX: (int, int, int) -> real,
    diffusionY: (int, int, int) -> real,
    convectionX: (int, int, int) -> real,
    convectionY: (int, int, int) -> real,
    reaction: (int, int, int) -> real,
    load: (int, int) -> real,
    natural: (int, int, int) -> real)

  /** `f_h + bc_n + bc_xx + bc_yy + bc_0x + bc_0y + bc_00`, summed left to right. */
  function SystemRHS(f: seq<real>, g: seq<real>, e1: seq<real>, e2: seq<real>, e3: seq<real>, e4: seq<real>, e5: seq<real>): (r: seq<real>)
    requires |g| == |f| && |e1| == |f| && |e2| == |f| && |e3| == |f| && |e4| == |f| && |e5| == |f|
    ensures |r| == |f|
    ensures forall i :: 0 <= i < |f| ==> r[i] == f[i] + g[i] + e1[i] + e2[i] + e3[i] + e4[i] + e5[i]
  {
    Add(Add(Add(Add(Add(Add(f, g), e1), e2), e3), e4), e5)
  }

  /** The reduced right-hand side: each of the seven vectors without its boundary entries, summed. */
  function ReducedRHS(load: seq<real>, natural: seq<real>, Mxx: Mat, Myy: Mat, M0x: Mat, M0y: Mat, M00: Mat,
                      values: seq<real>, B: seq<int>): (r: seq<real>)
    requires |natural| == |load| && |values| == |load| && StrictlyIncreasing(B) && IndicesBelow(B, |load|)
    requires IsShape(Mxx, |load|, |load|) && IsShape(Myy, |load|, |load|) && IsShape(M0x, |load|, |load|)
    requires IsShape(M0y, |load|, |load|) && IsShape(M00, |load|, |load|)
    ensures |r| == |load| - |B|
  {
    var n := |load|;
    SystemRHS(RemoveIndices(load, B), RemoveIndices(natural, B),
              RemoveIndices(EssentialVector(Mxx, values, B, n), B), RemoveIndices(EssentialVector(Myy, values, B, n), B),
              RemoveIndices(EssentialVector(M0x, values, B, n), B), RemoveIndices(EssentialVector(M0y, values, B, n), B),
              RemoveIndices(EssentialVector(M00, values, B, n), B))
  }

  /** The five assembled matrices of a space. */
  function Operators(m: Mesh2D, p: int, t: EllipticTerms): (Ms: seq<Mat>)
    requires m.Valid() && p > 0
    ensures |Ms| == 5 && forall k :: 0 <= k < 5 ==> IsShape(Ms[k], NumDofs(m, p), NumDofs(m, p))
  {
    [MassPair(m, p, p, t.diffusionX), MassPair(m, p, p, t.diffusionY), MassPair(m, p, p, t.convectionX),
     MassPair(m, p, p, t.convectionY), MassPair(m, p, p, t.reaction)]
  }

  /** The system matrix that is solved: the five matrices without the boundary rows and columns, summed. */
  function SystemOperator(m: Mesh2D, p: int, B: seq<int>, t: EllipticTerms): (S: Mat)
    requires m.Valid() && p > 0 && StrictlyIncreasing(B) && IndicesBelow(B, NumDofs(m, p))
    ensures IsSquare(S) && |S| == NumDofs(m, p) - |B|
  {
    var Ms := Operators(m, p, t);
    ReducedMatrix(Ms[0], Ms[1], Ms[2], Ms[3], Ms[4], B)
  }

  /** The right-hand side that is solved, with `values` the current unknown 0 of every node. */
  function SystemLoad2D(m: Mesh2D, p: int, B: seq<int>, t: EllipticTerms, values: seq<real>): (r: seq<real>)
    requires m.Valid() && p > 0 && StrictlyIncreasing(B) && IndicesBelow(B, NumDofs(m, p)) && |values| == NumDofs(m, p)
    ensures |r| == NumDofs(m, p) - |B|
  {
    var Ms := Operators(m, p, t);
    ReducedRHS(Load2D(m, p, t.load), NaturalUpTo(NumDofs(m, p), m, Table(m, p), RowWidth(p), t.natural, m.size),
               Ms[0], Ms[1], Ms[2], Ms[3], Ms[4], values, B)
  }

  /** What `solveSystem` returns: the solved unknowns with a zero put back at every boundary index. */
  function EllipticSolution(m: Mesh2D, p: int, B: seq<int>, t: EllipticTerms, values: seq<real>): (u: seq<real>)
    requires m.Valid() && p > 0 && StrictlyIncreasing(B) && IndicesBelow(B, NumDofs(m, p)) && |values| == NumDofs(m, p)
    requires NonzeroPivots(SystemOperator(m, p, B, t))
    ensures |u| == NumDofs(m, p)
  {
    InsertZeros(LUSolution(SystemOperator(m, p, B, t), SystemLoad2D(m, p, B, t, values)), B)
  }

  /** Removing the zeros at the boundary gives back the solved vector, and the solved vector satisfies the factored system. */
  lemma SolutionSolvesReducedSystem(m: Mesh2D, p: int, B: seq<int>, t: EllipticTerms, values: seq<real>)
    requires m.Valid() && p > 0 && StrictlyIncreasing(B) && IndicesBelow(B, NumDofs(m, p)) && |values| == NumDofs(m, p)
    requires NonzeroPivots(SystemOperator(m, p, B, t))
    ensures var S, u := SystemOperator(m, p, B, t), EllipticSolution(m, p, B, t, values);
      && (forall k :: 0 <= k < |B| ==> u[B[k]] == 0.0)
      && LowerTimes(Factors(S), UpperTimes(Factors(S), RemoveIndices(u, B))) == SystemLoad2D(m, p, B, t, values)
  {
    var S, r := SystemOperator(m, p, B, t), SystemLoad2D(m, p, B, t, values);
    InsertZerosAtBoundary(LUSolution(S, r), B);
    RemoveAfterReinsert(LUSolution(S, r), B);
    SolutionSatisfiesFactors(S, r);
  }

  /** Removing the boundary entries of a zero vector leaves a zero vector. */
  lemma {:induction false} RemoveIndicesZeros(n: nat, B: seq<int>)
    requires StrictlyIncreasing(B) && IndicesBelow(B, n) && |B| <= n
    ensures RemoveIndices(Zeros(n), B) == Zeros(n - |B|)
    decreases |B|
  {
    if |B| > 0 {
      RemoveIndicesZeros(n, B[1..]);
    }
  }

  /**
   * With homogeneous essential data (every prescribed value 0) the essential
   * vectors drop out: the right-hand side is the reduced load plus the
   * reduced natural vector.
   */
  lemma HomogeneousRHS(load: seq<real>, natural: seq<real>, Mxx: Mat, Myy: Mat, M0x: Mat, M0y: Mat, M00: Mat,
                       values: seq<real>, B: seq<int>)
    requires |natural| == |load| && |values| == |load| && StrictlyIncreasing(B) && IndicesBelow(B, |load|)
    requires IsShape(Mxx, |load|, |load|) && IsShape(Myy, |load|, |load|) && IsShape(M0x, |load|, |load|)
    requires IsShape(M0y, |load|, |load|) && IsShape(M00, |load|, |load|)
    requires forall k :: 0 <= k < |B| ==> values[B[k]] == 0.0
    ensures ReducedRHS(load, natural, Mxx, Myy, M0x, M0y, M00, values, B) == Add(RemoveIndices(load, B), RemoveIndices(natural, B))
  {
    var n := |load|;
    SortedCount(B, n);
    EssentialVectorHomogeneous(Mxx, values, B, n);
    EssentialVectorHomogeneous(Myy, values, B, n);
    EssentialVectorHomogeneous(M0x, values, B, n);
    EssentialVectorHomogeneous(M0y, values, B, n);
    EssentialVectorHomogeneous(M00, values, B, n);
    RemoveIndicesZeros(n, B);
    var f, g, z := RemoveIndices(load, B), RemoveIndices(natural, B), Zeros(n - |B|);
    assert ReducedRHS(load, natural, Mxx, Myy, M0x, M0y, M00, values, B) == SystemRHS(f, g, z, z, z, z, z);
    SystemRHSZeros(f, g);
  }

  /** Five zero vectors add nothing. */
  lemma SystemRHSZeros(f: seq<real>, g: seq<real>)
    requires |g| == |f|
    ensures var z := Zeros(|f|); SystemRHS(f, g, z, z, z, z, z) == Add(f, g)
  {
  }


  /** `*f_h + *bc_n + *bc_eM_xx + *bc_eM_yy + *bc_eM_0x + *bc_eM_0y + *bc_eM_00` on the Vector class: a fresh vector. */
  method SumRHS(fh: Vector, bn: Vector, exx: Vector, eyy: Vector, e0x: Vector, e0y: Vector, e00: Vector) returns (r: Vector)
    requires fh.Valid() && bn.Valid() && exx.Valid() && eyy.Valid() && e0x.Valid() && e0y.Valid() && e00.Valid()
    requires bn.n == fh.n && exx.n == fh.n && eyy.n == fh.n && e0x.n == fh.n && e0y.n == fh.n && e00.n == fh.n
    ensures fresh(r) && fresh(r.entries) && r.Valid() && r.n == fh.n
    ensures r.Contents() == SystemRHS(fh.Contents(), bn.Contents(), exx.Contents(), eyy.Contents(), e0x.Contents(), e0y.Contents(), e00.Contents())
  {
    r := fh.Plus(bn);
    r := r.Plus(exx);
    r := r.Plus(eyy);
    r := r.Plus(e0x);
    r := r.Plus(e0y);
    r := r.Plus(e00);
  }

  /** `solve(S, r)` followed by the ascending `insert(0, i)` walk over the boundary list. */
  method SolveAndReinsert(S: Matrix, r: Vector, B: seq<int>) returns (x: Vector)
    requires S.Valid() && r.Valid() && S.n == S.m == r.n && S.n >= 1 && NonzeroPivots(S.Contents())
    requires StrictlyIncreasing(B) && IndicesBelow(B, r.n + |B|)
    modifies S.entries
    ensures fresh(x) && x.Valid() && x.n == r.n + |B|
    ensures x.Contents() == InsertZeros(LUSolution(old(S.Contents()), r.Contents()), B)
  {
    x := Solve(S, r);
    InsertBoundaryZeros(x, B);
  }

  /** The problem on a space with one unknown per node (`Elliptic2DABCF`). */
  class EllipticProblem2D {
    const fem: FEM2D
    const terms: EllipticTerms
    /** `neq`: the number of unknowns per node. */
    const equations: int

    ghost predicate Valid()
      reads this, fem, fem.FENodes, fem.connectivityMatrix
    {
      && fem.Valid() && fem.N == 1 && equations == 1
      && StrictlyIncreasing(fem.boundaryIndices) && IndicesBelow(fem.boundaryIndices, fem.Ng)
    }

    constructor (uFem: FEM2D, t: EllipticTerms)
      requires uFem.Valid() && uFem.N == 1
      ensures Valid() && fem == uFem && terms == t
    {
      fem := uFem;
      terms := t;
      equations := 1;
      new;
      SpaceFacts(uFem);
      uFem.BoundaryIndicesAreConstrained();
    }

    /** The system matrix this problem solves. */
    ghost function Operator(): Mat
      reads this, fem, fem.FENodes, fem.connectivityMatrix
      requires Valid()
    {
      SystemOperator(fem.mesh, fem.polynomialOrder, fem.boundaryIndices, terms)
    }

    /**
     * One operator of the problem: its matrix and its essential vector (made
     * from the unreduced matrix and the current boundary values), each
     * without its boundary rows, columns or entries.
     */
    method ReducedOperator(local: (int, int, int) -> real) returns (M: Matrix, e: Vector)
      requires Valid()
      ensures forall j :: 0 <= j < fem.Ng ==> |fem.FENodes[j].vars| > 0
      ensures fresh(M) && M.Valid() && M.n == M.m == fem.Ng - |fem.boundaryIndices|
      ensures fresh(e) && e.Valid() && e.n == fem.Ng - |fem.boundaryIndices|
      ensures var A, B := MassPair(fem.mesh, fem.polynomialOrder, fem.polynomialOrder, local), fem.boundaryIndices;
        && M.Contents() == RemoveRowsCols(A, B)
        && e.Contents() == RemoveIndices(EssentialVector(A, Unknowns(fem.FENodes[..], 0), B, fem.Ng), B)
    {
      M := MassMatrix2D(fem, local);
      e := EssentialBoundaryVector2D(fem, 0, M);
      RemoveBoundaryRowsCols(M, fem.boundaryIndices);
      RemoveBoundaryIndices(e, fem.boundaryIndices);
    }

    /** `f_h` and `bc_n` without their boundary entries, as new vectors. */
    method ReducedLoads() returns (fh: Vector, bn: Vector)
      requires Valid() && BoundaryEdgesTagged(fem.mesh)
      ensures fresh(fh) && fh.Valid() && fh.n == fem.Ng - |fem.boundaryIndices|
      ensures fresh(bn) && bn.Valid() && bn.n == fem.Ng - |fem.boundaryIndices|
      ensures fh.Contents() == RemoveIndices(Load2D(fem.mesh, fem.polynomialOrder, terms.load), fem.boundaryIndices)
      ensures bn.Contents() == RemoveIndices(NaturalUpTo(fem.Ng, fem.mesh, Table(fem.mesh, fem.polynomialOrder), RowWidth(fem.polynomialOrder),
                                                         terms.natural, fem.mesh.size), fem.boundaryIndices)
    {
      fh := LoadVector2D(fem, terms.load);
      RemoveBoundaryIndices(fh, fem.boundaryIndices);
      bn := NaturalBoundaryVector2D(fem, terms.natural);
      RemoveBoundaryIndices(bn, fem.boundaryIndices);
    }

    /** The sum of the five reduced matrices, and the five reduced essential vectors. */
    method ReducedOperators() returns (S: Matrix, exx: Vector, eyy: Vector, e0x: Vector, e0y: Vector, e00: Vector)
      requires Valid()
      ensures forall j :: 0 <= j < fem.Ng ==> |fem.FENodes[j].vars| > 0
      ensures fresh(S) && fresh(S.entries) && S.Valid() && S.n == S.m == fem.Ng - |fem.boundaryIndices|
      ensures S.Contents() == Operator()
      ensures exx.Valid() && eyy.Valid() && e0x.Valid() && e0y.Valid() && e00.Valid()
      ensures fresh(exx) && fresh(eyy) && fresh(e0x) && fresh(e0y) && fresh(e00)
      ensures var n := fem.Ng - |fem.boundaryIndices|; exx.n == n && eyy.n == n && e0x.n == n && e0y.n == n && e00.n == n
      ensures var Ms, values, B := Operators(fem.mesh, fem.polynomialOrder, terms), Unknowns(fem.FENodes[..], 0), fem.boundaryIndices;
        && exx.Contents() == RemoveIndices(EssentialVector(Ms[0], values, B, fem.Ng), B)
        && eyy.Contents() == RemoveIndices(EssentialVector(Ms[1], values, B, fem.Ng), B)
        && e0x.Contents() == RemoveIndices(EssentialVector(Ms[2], values, B, fem.Ng), B)
        && e0y.Contents() == RemoveIndices(EssentialVector(Ms[3], values, B, fem.Ng), B)
        && e00.Contents() == RemoveIndices(EssentialVector(Ms[4], values, B, fem.Ng), B)
    {
      var Mxx, Myy, M0x, M0y, M00;
      Mxx, exx := ReducedOperator(terms.diffusionX);
      Myy, eyy := ReducedOperator(terms.diffusionY);
      M0x, e0x := ReducedOperator(terms.convectionX);
      M0y, e0y := ReducedOperator(terms.convectionY);
      M00, e00 := ReducedOperator(terms.reaction);
      S := SumMatrices(Mxx, Myy, M0x, M0y, M00);
    }

    /** The reduced system: the sum of the five reduced matrices and the sum of the seven reduced vectors. */
    method ReducedSystem() returns (S: Matrix, r: Vector)
      requires Valid() && BoundaryEdgesTagged(fem.mesh)
      ensures forall j :: 0 <= j < fem.Ng ==> |fem.FENodes[j].vars| > 0
      ensures fresh(S) && fresh(S.entries) && S.Valid() && S.n == S.m == fem.Ng - |fem.boundaryIndices|
      ensures fresh(r) && r.Valid() && r.n == fem.Ng - |fem.boundaryIndices|
      ensures S.Contents() == Operator()
      ensures r.Contents() == SystemLoad2D(fem.mesh, fem.polynomialOrder, fem.boundaryIndices, terms, Unknowns(fem.FENodes[..], 0))
    {
      var exx, eyy, e0x, e0y, e00;
      S, exx, eyy, e0x, e0y, e00 := ReducedOperators();
      var fh, bn := ReducedLoads();
      r := SumRHS(fh, bn, exx, eyy, e0x, e0y, e00);
    }

    /**
     * `solveSystem`: the coefficients of every DOF, zero at the constrained
     * ones. The solve needs at least one free DOF and nonzero pivots.
     */
    method SolveSystem() returns (coefficients: Vector)
      requires Valid() && BoundaryEdgesTagged(fem.mesh) && |fem.boundaryIndices| < fem.Ng
      requires NonzeroPivots(Operator())
      ensures fresh(coefficients) && coefficients.Valid() && coefficients.n == fem.Ng
      ensures forall j :: 0 <= j < fem.Ng ==> |fem.FENodes[j].vars| > 0
      ensures coefficients.Contents() ==
        EllipticSolution(fem.mesh, fem.polynomialOrder, fem.boundaryIndices, terms, Unknowns(fem.FENodes[..], 0))
    {
      var S, r := ReducedSystem();
      coefficients := SolveAndReinsert(S, r, fem.boundaryIndices);
    }

    /**
     * `update`: unknown 0 of every DOF an element names becomes its
     * coefficient; nothing else changes.
     */
    method Update()
      requires Valid() && BoundaryEdgesTagged(fem.mesh) && |fem.boundaryIndices| < fem.Ng
      requires NonzeroPivots(Operator())
      modifies fem.FENodes
      ensures Valid()
      ensures forall j :: 0 <= j < fem.Ng ==> |old(fem.FENodes[j]).vars| > 0
      ensures WrittenBack(old(fem.FENodes[..]), fem.FENodes[..], Table(fem.mesh, fem.polynomialOrder), RowWidth(fem.polynomialOrder), fem.mesh.size,
                          EllipticSolution(fem.mesh, fem.polynomialOrder, fem.boundaryIndices, terms, Unknowns(old(fem.FENodes[..]), 0)))
    {
      var u := SolveSystem();
      WriteBack2D(fem, u);
    }
  }
}
