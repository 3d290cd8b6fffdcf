/**
 * The steady Stokes problem (StokesFluid.cpp): velocity components u1, u2
 * on a space with two unknowns per node, pressure p on a space with one,
 * both over one mesh. The solve step assembles the viscous matrices (the x
 * and y derivative pairs of the velocity space), the pressure couplings
 * (pressure values against the x and y derivatives of velocity), the
 * pressure mean and the two body-force loads; forms the essential vectors
 * of the velocity boundary values; removes the constrained rows, columns
 * and entries; and solves one saddle-point system of size
 * 2 Nu + Np + 1, whose unknowns are u1, u2, p and a multiplier that fixes
 * the pressure mean. Zeros go back at the constrained DOFs of each block,
 * and the update copies the three blocks into the spaces.
 */
module StokesFlow2D {
  import opened Vectors
  import opened Matrices
  import opened Elimination
  import opened TriangularMesh
  import opened FiniteElements2D
  import opened FiniteElementMethod2D
  import opened Projection2D
  import opened EquationSystem2D
  import opened Assembly
  import EllipticSolver2D

  /**
   * The local integrals of the problem's data: nu with the x and y
   * derivative pairs of velocity, 1 / rho with pressure values against the
   * x and y derivatives of velocity, the constant 1 against pressure values,
   * and the body forces f1, f2 against velocity values.
   */
  datatype StokesTerms = StokesTerms(
    viscousX: (int, int, int) -> real,
    viscousY: (int, int, int) -> real,
    pressureX: (int, int, int) -> real,
    pressureY: (int, int, int) -> real,
    mean: (int, int) -> real,
    force1: (int, int) -> real,
    force2: (int, int) -> real)

  // ---------------------------------------------------------------------
  // The block system

  /**
   * Entry (r, c) of the saddle-point matrix with Nu unknowns per velocity
   * component and Np pressure unknowns: V on both velocity diagonal blocks,
   * -Px and -Py in the pressure rows with their transposes in the pressure
   * columns, the mean weights fl in the last row and column, 0 elsewhere.
   */
  function BlockEntry(V: Mat, Px: Mat, Py: Mat, fl: seq<real>, Nu: nat, Np: nat, r: nat, c: nat): real
    requires IsShape(V, Nu, Nu) && IsShape(Px, Np, Nu) && IsShape(Py, Np, Nu) && |fl| == Np
    requires r < 2 * Nu + Np + 1 && c < 2 * Nu + Np + 1
  {
    var P, L := 2 * Nu, 2 * Nu + Np;
    if r < Nu && c < Nu then V[r][c]
    else if Nu <= r < P && Nu <= c < P then V[r - Nu][c - Nu]
    else if P <= r < L && c < Nu then -1.0 * Px[r - P][c]
    else if P <= r < L && Nu <= c < P then -1.0 * Py[r - P][c - Nu]
    else if r < Nu && P <= c < L then -1.0 * Px[c - P][r]
    else if Nu <= r < P && P <= c < L then -1.0 * Py[c - P][r - Nu]
    else if r == L && P <= c < L then fl[c - P]
    else if P <= r < L && c == L then fl[r - P]
    else 0.0
  }

  /** The saddle-point matrix, of size 2 Nu + Np + 1. */
  function StokesMatrix(V: Mat, Px: Mat, Py: Mat, fl: seq<real>, Nu: nat, Np: nat): (M: Mat)
    requires IsShape(V, Nu, Nu) && IsShape(Px, Np, Nu) && IsShape(Py, Np, Nu) && |fl| == Np
    ensures IsShape(M, 2 * Nu + Np + 1, 2 * Nu + Np + 1)
    ensures forall r, c :: 0 <= r < |M| && 0 <= c < |M| ==> M[r][c] == BlockEntry(V, Px, Py, fl, Nu, Np, r, c)
  {
    var n := 2 * Nu + Np + 1;
    seq(n, r requires 0 <= r < n => seq(n, c requires 0 <= c < n => BlockEntry(V, Px, Py, fl, Nu, Np, r, c)))
  }

  predicate SymmetricMat(A: Mat)
    requires IsSquare(A)
  {
    forall i, j :: 0 <= i < |A| && 0 <= j < |A| ==> A[i][j] == A[j][i]
  }

  /** The saddle-point matrix is symmetric exactly when its velocity block is. */
  lemma {:induction false} StokesMatrixSymmetric(V: Mat, Px: Mat, Py: Mat, fl: seq<real>, Nu: nat, Np: nat)
    requires IsShape(V, Nu, Nu) && IsShape(Px, Np, Nu) && IsShape(Py, Np, Nu) && |fl| == Np
    ensures SymmetricMat(StokesMatrix(V, Px, Py, fl, Nu, Np)) <==> SymmetricMat(V)
  {
    var M := StokesMatrix(V, Px, Py, fl, Nu, Np);
    if SymmetricMat(V) {
      forall r, c | 0 <= r < |M| && 0 <= c < |M|
        ensures M[r][c] == M[c][r]
      {
        assert M[r][c] == BlockEntry(V, Px, Py, fl, Nu, Np, r, c);
        assert M[c][r] == BlockEntry(V, Px, Py, fl, Nu, Np, c, r);
      }
    }
    if SymmetricMat(M) {
      forall i, j | 0 <= i < Nu && 0 <= j < Nu
        ensures V[i][j] == V[j][i]
      {
        assert M[i][j] == V[i][j] && M[j][i] == V[j][i];
      }
    }
  }

  /** Entry (i, j) of `A` without row and column k is entry (Skip(i, k), Skip(j, k)) of `A`. */
  lemma {:induction false} RemoveRowColSkip(A: Mat, k: nat, i: nat, j: nat)
    requires IsSquare(A) && k < |A| && i < |A| - 1 && j < |A| - 1
    ensures |RemoveRowCol(A, k)| == |A| - 1 && |RemoveRowCol(A, k)[i]| == |A| - 1
    ensures RemoveRowCol(A, k)[i][j] == A[Skip(i, k)][Skip(j, k)]
  {
    RemoveAtSkip(A, k);
    RemoveAtSkip(A[Skip(i, k)], k);
  }

  /** Removing the same row and column from a symmetric matrix keeps it symmetric. */
  lemma {:induction false} RemoveRowColSymmetric(A: Mat, k: nat)
    requires IsSquare(A) && k < |A| && SymmetricMat(A)
    ensures IsSquare(RemoveRowCol(A, k)) && SymmetricMat(RemoveRowCol(A, k))
  {
    var n := |A|;
    var R := RemoveRowCol(A, k);
    forall i | 0 <= i < n - 1
      ensures |R[i]| == n - 1
    {
      RemoveRowColSkip(A, k, i, 0);
    }
    forall i, j | 0 <= i < n - 1 && 0 <= j < n - 1
      ensures R[i][j] == R[j][i]
    {
      RemoveRowColSkip(A, k, i, j);
      RemoveRowColSkip(A, k, j, i);
    }
  }

  /** Removing the boundary rows and columns from a symmetric matrix keeps it symmetric. */
  lemma {:induction false} RemoveRowsColsSymmetric(A: Mat, B: seq<int>)
    requires IsSquare(A) && StrictlyIncreasing(B) && IndicesBelow(B, |A|) && SymmetricMat(A)
    ensures SymmetricMat(RemoveRowsCols(A, B))
    decreases |B|
  {
    if |B| > 0 {
      SortedIndicesFit(B, |A|);
      RemoveRowsColsSymmetric(A, B[1..]);
      RemoveRowColSymmetric(RemoveRowsCols(A, B[1..]), B[0]);
    }
  }

  /** The sum of two symmetric matrices is symmetric. */
  lemma {:induction false} AddMatSymmetric(A: Mat, B: Mat, n: nat)
    requires IsShape(A, n, n) && IsShape(B, n, n) && SymmetricMat(A) && SymmetricMat(B)
    ensures SymmetricMat(AddMat(A, B, n, n))
  {
  }

  /**
   * The right-hand side: the velocity rows f + the two essential vectors of
   * the viscous matrices, the pressure rows minus the essential vectors of
   * the couplings, and 0 for the mean condition.
   */
  function StokesLoad(f1: seq<real>, e1xx: seq<real>, e1yy: seq<real>, f2: seq<real>, e2xx: seq<real>, e2yy: seq<real>,
                      e1p: seq<real>, e2p: seq<real>): (b: seq<real>)
    requires |e1xx| == |f1| && |e1yy| == |f1| && |f2| == |f1| && |e2xx| == |f1| && |e2yy| == |f1| && |e2p| == |e1p|
    ensures |b| == 2 * |f1| + |e1p| + 1
    ensures forall i :: 0 <= i < |f1| ==> b[i] == f1[i] + e1xx[i] + e1yy[i] && b[|f1| + i] == f2[i] + e2xx[i] + e2yy[i]
    ensures forall i :: 0 <= i < |e1p| ==> b[2 * |f1| + i] == -1.0 * (e1p[i] + e2p[i])
    ensures b[2 * |f1| + |e1p|] == 0.0
  {
    Add(Add(f1, e1xx), e1yy) + Add(Add(f2, e2xx), e2yy) + Neg(Add(e1p, e2p)) + [0.0]
  }

  // ---------------------------------------------------------------------
  // Filling the system

  /** Row i of both velocity blocks, M[i][j] = M[Nu + i][Nu + j] = Muu_xx[i][j] + Muu_yy[i][j]: the inner loop over j. */
  method FillVelocityRow(a: array2<real>, Axx: Matrix, Ayy: Matrix, Nu: nat, i: nat, ghost T: Mat)
    requires Axx.Valid() && Ayy.Valid() && Axx.n == Axx.m == Nu && Ayy.n == Ayy.m == Nu && i < Nu
    requires a != Axx.entries && a != Ayy.entries && 2 * Nu <= a.Length0 && 2 * Nu <= a.Length1
    requires IsShape(T, a.Length0, a.Length1)
    requires forall j :: 0 <= j < Nu ==>
      T[i][j] == Axx.entries[i, j] + Ayy.entries[i, j] && T[Nu + i][Nu + j] == Axx.entries[i, j] + Ayy.entries[i, j]
    modifies a
    ensures forall r, c :: 0 <= r < a.Length0 && 0 <= c < a.Length1 ==>
      a[r, c] == if (r == i && c < Nu) || (r == Nu + i && Nu <= c < 2 * Nu) then T[r][c] else old(a[r, c])
  {
    for j := 0 to Nu
      invariant forall r, c :: 0 <= r < a.Length0 && 0 <= c < a.Length1 ==>
        a[r, c] == if (r == i && c < j) || (r == Nu + i && Nu <= c < Nu + j) then T[r][c] else old(a[r, c])
    {
      a[i, j] := Axx.entries[i, j] + Ayy.entries[i, j];
      a[Nu + i, Nu + j] := Axx.entries[i, j] + Ayy.entries[i, j];
    }
  }

  /** Column i of the couplings, written into pressure row 2 Nu + i and pressure column 2 Nu + i: the inner loop over j. */
  method FillCouplingRow(a: array2<real>, Px: Matrix, Py: Matrix, Nu: nat, i: nat, ghost T: Mat)
    requires Px.Valid() && Py.Valid() && Px.m == Nu && Py.m == Nu && i < Px.n && i < Py.n
    requires a != Px.entries && a != Py.entries && 2 * Nu + i < a.Length0 && 2 * Nu + i < a.Length1
    requires IsShape(T, a.Length0, a.Length1)
    requires forall j :: 0 <= j < Nu ==> T[2 * Nu + i][j] == -1.0 * Px.entries[i, j] && T[j][2 * Nu + i] == -1.0 * Px.entries[i, j]
    requires forall j :: 0 <= j < Nu ==> T[2 * Nu + i][Nu + j] == -1.0 * Py.entries[i, j] && T[Nu + j][2 * Nu + i] == -1.0 * Py.entries[i, j]
    modifies a
    ensures forall r, c :: 0 <= r < a.Length0 && 0 <= c < a.Length1 ==>
      a[r, c] == if (r == 2 * Nu + i && c < 2 * Nu) || (r < 2 * Nu && c == 2 * Nu + i) then T[r][c] else old(a[r, c])
  {
    for j := 0 to Nu
      invariant forall r, c :: 0 <= r < a.Length0 && 0 <= c < a.Length1 ==>
        a[r, c] == if (r == 2 * Nu + i && (c < j || Nu <= c < Nu + j)) || (c == 2 * Nu + i && (r < j || Nu <= r < Nu + j))
                   then T[r][c] else old(a[r, c])
    {
      a[2 * Nu + i, j] := -1.0 * Px.entries[i, j];
      a[2 * Nu + i, Nu + j] := -1.0 * Py.entries[i, j];
      a[j, 2 * Nu + i] := -1.0 * Px.entries[i, j];
      a[Nu + j, 2 * Nu + i] := -1.0 * Py.entries[i, j];
    }
  }

  /**
   * The cells written by the first `loops` of the three assembly loops:
   * the velocity blocks, then the pressure rows and columns, then the mean
   * row and column.
   */
  predicate Written(Nu: int, Np: int, loops: nat, r: int, c: int)
  {
    var P, L := 2 * Nu, 2 * Nu + Np;
    || (1 <= loops && ((0 <= r < Nu && 0 <= c < Nu) || (Nu <= r < P && Nu <= c < P)))
    || (2 <= loops && ((P <= r < L && 0 <= c < P) || (0 <= r < P && P <= c < L)))
    || (3 <= loops && ((r == L && P <= c < L) || (P <= r < L && c == L)))
  }

  /** The buffer agrees with T on the cells the first `loops` loops write, and is zero elsewhere. */
  ghost predicate FilledThrough(a: array2<real>, T: Mat, Nu: int, Np: int, loops: nat)
    requires IsShape(T, a.Length0, a.Length1)
    reads a
  {
    forall r, c :: 0 <= r < a.Length0 && 0 <= c < a.Length1 ==>
      a[r, c] == if Written(Nu, Np, loops, r, c) then T[r][c] else 0.0
  }

  /** The velocity blocks of the saddle-point matrix: V twice on the diagonal. */
  lemma {:induction false} StokesVelocityBlocks(V: Mat, Px: Mat, Py: Mat, fl: seq<real>, Nu: nat, Np: nat)
    requires IsShape(V, Nu, Nu) && IsShape(Px, Np, Nu) && IsShape(Py, Np, Nu) && |fl| == Np
    ensures var M := StokesMatrix(V, Px, Py, fl, Nu, Np);
      && (forall i, j :: 0 <= i < Nu && 0 <= j < Nu ==> M[i][j] == V[i][j])
      && (forall r, c :: Nu <= r < 2 * Nu && Nu <= c < 2 * Nu ==> M[r][c] == V[r - Nu][c - Nu])
  {
  }

  /** The coupling blocks: -Px and -Py in the pressure rows, their transposes in the pressure columns. */
  lemma {:induction false} StokesCouplingBlocks(V: Mat, Px: Mat, Py: Mat, fl: seq<real>, Nu: nat, Np: nat)
    requires IsShape(V, Nu, Nu) && IsShape(Px, Np, Nu) && IsShape(Py, Np, Nu) && |fl| == Np
    ensures var M := StokesMatrix(V, Px, Py, fl, Nu, Np);
      forall i, j :: 0 <= i < Np && 0 <= j < Nu ==>
        M[2 * Nu + i][j] == -1.0 * Px[i][j] && M[j][2 * Nu + i] == -1.0 * Px[i][j] &&
        M[2 * Nu + i][Nu + j] == -1.0 * Py[i][j] && M[Nu + j][2 * Nu + i] == -1.0 * Py[i][j]
  {
  }

  /** The mean weights in the last row and column. */
  lemma {:induction false} StokesMeanBlocks(V: Mat, Px: Mat, Py: Mat, fl: seq<real>, Nu: nat, Np: nat)
    requires IsShape(V, Nu, Nu) && IsShape(Px, Np, Nu) && IsShape(Py, Np, Nu) && |fl| == Np
    ensures var M := StokesMatrix(V, Px, Py, fl, Nu, Np);
      forall i :: 0 <= i < Np ==> M[2 * Nu + Np][2 * Nu + i] == fl[i] && M[2 * Nu + i][2 * Nu + Np] == fl[i]
  {
  }

  /** Every cell none of the three loops writes is 0. */
  lemma {:induction false} StokesUnwritten(V: Mat, Px: Mat, Py: Mat, fl: seq<real>, Nu: nat, Np: nat)
    requires IsShape(V, Nu, Nu) && IsShape(Px, Np, Nu) && IsShape(Py, Np, Nu) && |fl| == Np
    ensures var M := StokesMatrix(V, Px, Py, fl, Nu, Np);
      forall r, c {:trigger Written(Nu, Np, 3, r, c)} :: 0 <= r < |M| && 0 <= c < |M| && !Written(Nu, Np, 3, r, c) ==> M[r][c] == 0.0
  {
  }

  /** The velocity blocks of T, as the two viscous buffers give them. */
  ghost predicate VelocityLayout(Axx: Matrix, Ayy: Matrix, Nu: nat, T: Mat)
    requires Axx.Valid() && Ayy.Valid() && Axx.n == Axx.m == Nu && Ayy.n == Ayy.m == Nu && IsShape(T, |T|, |T|) && 2 * Nu <= |T|
    reads Axx, Axx.entries, Ayy, Ayy.entries
  {
    && (forall i, j :: 0 <= i < Nu && 0 <= j < Nu ==> T[i][j] == Axx.entries[i, j] + Ayy.entries[i, j])
    && (forall r, c :: Nu <= r < 2 * Nu && Nu <= c < 2 * Nu ==> T[r][c] == Axx.entries[r - Nu, c - Nu] + Ayy.entries[r - Nu, c - Nu])
  }

  /** The pressure rows and columns of T, as the two coupling buffers give them. */
  ghost predicate CouplingLayout(Px: Matrix, Py: Matrix, Nu: nat, Np: nat, T: Mat)
    requires Px.Valid() && Py.Valid() && Px.n == Py.n == Np && Px.m == Py.m == Nu && IsShape(T, |T|, |T|) && 2 * Nu + Np <= |T|
    reads Px, Px.entries, Py, Py.entries
  {
    forall i, j :: 0 <= i < Np && 0 <= j < Nu ==>
      T[2 * Nu + i][j] == -1.0 * Px.entries[i, j] && T[j][2 * Nu + i] == -1.0 * Px.entries[i, j] &&
      T[2 * Nu + i][Nu + j] == -1.0 * Py.entries[i, j] && T[Nu + j][2 * Nu + i] == -1.0 * Py.entries[i, j]
  }

  /** The last row and column of T, as the mean buffer gives them. */
  ghost predicate MeanLayout(fl: Vector, Nu: nat, Np: nat, T: Mat)
    requires fl.Valid() && fl.n == Np && IsShape(T, |T|, |T|) && 2 * Nu + Np < |T|
    reads fl, fl.entries
  {
    forall i :: 0 <= i < Np ==> T[2 * Nu + Np][2 * Nu + i] == fl.entries[i] && T[2 * Nu + i][2 * Nu + Np] == fl.entries[i]
  }

  /** The velocity loop: both velocity blocks, row by row. */
  method FillVelocity(a: array2<real>, Axx: Matrix, Ayy: Matrix, Nu: nat, Np: nat, ghost T: Mat)
    requires Axx.Valid() && Ayy.Valid() && Axx.n == Axx.m == Nu && Ayy.n == Ayy.m == Nu
    requires a != Axx.entries && a != Ayy.entries && a.Length0 == a.Length1 == 2 * Nu + Np + 1
    requires IsShape(T, a.Length0, a.Length1) && VelocityLayout(Axx, Ayy, Nu, T)
    requires FilledThrough(a, T, Nu, Np, 0)
    modifies a
    ensures FilledThrough(a, T, Nu, Np, 1)
  {
    for i := 0 to Nu
      invariant forall r, c :: 0 <= r < a.Length0 && 0 <= c < a.Length1 ==>
        a[r, c] == if (r < i && c < Nu) || (Nu <= r < Nu + i && Nu <= c < 2 * Nu) then T[r][c] else old(a[r, c])
    {
      FillVelocityRow(a, Axx, Ayy, Nu, i, T);
    }
  }

  /** The coupling loop: the pressure rows and columns, one pressure unknown at a time. */
  method FillCoupling(a: array2<real>, Px: Matrix, Py: Matrix, Nu: nat, Np: nat, ghost T: Mat)
    requires Px.Valid() && Py.Valid() && Px.n == Py.n == Np && Px.m == Py.m == Nu
    requires a != Px.entries && a != Py.entries && a.Length0 == a.Length1 == 2 * Nu + Np + 1
    requires IsShape(T, a.Length0, a.Length1) && CouplingLayout(Px, Py, Nu, Np, T)
    requires FilledThrough(a, T, Nu, Np, 1)
    modifies a
    ensures FilledThrough(a, T, Nu, Np, 2)
  {
    for i := 0 to Np
      invariant forall r, c :: 0 <= r < a.Length0 && 0 <= c < a.Length1 ==>
        a[r, c] == if (2 * Nu <= r < 2 * Nu + i && c < 2 * Nu) || (r < 2 * Nu && 2 * Nu <= c < 2 * Nu + i) then T[r][c] else old(a[r, c])
    {
      FillCouplingRow(a, Px, Py, Nu, i, T);
    }
  }

  /** The mean loop: f_l into the last row and the last column. */
  method FillMean(a: array2<real>, fl: Vector, Nu: nat, Np: nat, ghost T: Mat)
    requires fl.Valid() && fl.n == Np && a.Length0 == a.Length1 == 2 * Nu + Np + 1
    requires IsShape(T, a.Length0, a.Length1) && MeanLayout(fl, Nu, Np, T)
    requires FilledThrough(a, T, Nu, Np, 2)
    modifies a
    ensures FilledThrough(a, T, Nu, Np, 3)
  {
    var L := 2 * Nu + Np;
    for i := 0 to Np
      invariant forall r, c :: 0 <= r < a.Length0 && 0 <= c < a.Length1 ==>
        a[r, c] == if (r == L && 2 * Nu <= c < 2 * Nu + i) || (2 * Nu <= r < 2 * Nu + i && c == L) then T[r][c] else old(a[r, c])
    {
      var f := fl.entries[i];
      a[L, 2 * Nu + i] := f;
      a[2 * Nu + i, L] := f;
    }
  }

  /** The inputs of the matrix assembly: valid, with the sizes `solveSystem` checks. */
  ghost predicate StokesInputs(Axx: Matrix, Ayy: Matrix, Px: Matrix, Py: Matrix, fl: Vector, Nu: nat, Np: nat)
    reads Axx, Ayy, Px, Py, fl
  {
    && Axx.Valid() && Ayy.Valid() && Px.Valid() && Py.Valid() && fl.Valid()
    && Axx.n == Axx.m == Nu && Ayy.n == Ayy.m == Nu && Px.m == Py.m == Nu && Px.n == Py.n == fl.n == Np
  }

  /** The saddle-point matrix of the assembly's inputs. */
  ghost function StokesTarget(Axx: Matrix, Ayy: Matrix, Px: Matrix, Py: Matrix, fl: Vector, Nu: nat, Np: nat): Mat
    requires StokesInputs(Axx, Ayy, Px, Py, fl, Nu, Np)
    reads Axx, Axx.entries, Ayy, Ayy.entries, Px, Px.entries, Py, Py.entries, fl, fl.entries
  {
    StokesMatrix(AddMat(Axx.Contents(), Ayy.Contents(), Nu, Nu), Px.Contents(), Py.Contents(), fl.Contents(), Nu, Np)
  }

  /** The velocity blocks of the target, read off the input buffers. */
  lemma VelocityEntries(Axx: Matrix, Ayy: Matrix, Px: Matrix, Py: Matrix, fl: Vector, Nu: nat, Np: nat)
    requires StokesInputs(Axx, Ayy, Px, Py, fl, Nu, Np)
    ensures VelocityLayout(Axx, Ayy, Nu, StokesTarget(Axx, Ayy, Px, Py, fl, Nu, Np))
  {
    StokesVelocityBlocks(AddMat(Axx.Contents(), Ayy.Contents(), Nu, Nu), Px.Contents(), Py.Contents(), fl.Contents(), Nu, Np);
  }

  /** The coupling blocks of the target, read off the input buffers. */
  lemma CouplingEntries(Axx: Matrix, Ayy: Matrix, Px: Matrix, Py: Matrix, fl: Vector, Nu: nat, Np: nat)
    requires StokesInputs(Axx, Ayy, Px, Py, fl, Nu, Np)
    ensures CouplingLayout(Px, Py, Nu, Np, StokesTarget(Axx, Ayy, Px, Py, fl, Nu, Np))
  {
    StokesCouplingBlocks(AddMat(Axx.Contents(), Ayy.Contents(), Nu, Nu), Px.Contents(), Py.Contents(), fl.Contents(), Nu, Np);
  }

  /** The mean row and column of the target, read off the input buffer. */
  lemma MeanEntries(Axx: Matrix, Ayy: Matrix, Px: Matrix, Py: Matrix, fl: Vector, Nu: nat, Np: nat)
    requires StokesInputs(Axx, Ayy, Px, Py, fl, Nu, Np)
    ensures MeanLayout(fl, Nu, Np, StokesTarget(Axx, Ayy, Px, Py, fl, Nu, Np))
  {
    StokesMeanBlocks(AddMat(Axx.Contents(), Ayy.Contents(), Nu, Nu), Px.Contents(), Py.Contents(), fl.Contents(), Nu, Np);
  }

  /**
   * The three loops of `solveSystem` run on a zero matrix of size
   * 2 Nu + Np + 1, for any target T with the block layout of the
   * saddle-point matrix read off the input buffers: the result is T.
   */
  method FillStokes(Axx: Matrix, Ayy: Matrix, Px: Matrix, Py: Matrix, fl: Vector, Nu: nat, Np: nat, ghost T: Mat) returns (M: Matrix)
    requires StokesInputs(Axx, Ayy, Px, Py, fl, Nu, Np)
    requires IsShape(T, 2 * Nu + Np + 1, 2 * Nu + Np + 1)
    requires VelocityLayout(Axx, Ayy, Nu, T) && CouplingLayout(Px, Py, Nu, Np, T) && MeanLayout(fl, Nu, Np, T)
    requires forall r, c {:trigger Written(Nu, Np, 3, r, c)} ::
      0 <= r < |T| && 0 <= c < |T| && !Written(Nu, Np, 3, r, c) ==> T[r][c] == 0.0
    ensures fresh(M) && fresh(M.entries) && M.Valid() && M.n == M.m == 2 * Nu + Np + 1
    ensures M.Contents() == T
  {
    M := new Matrix.Square(2 * Nu + Np + 1);
    var a := M.entries;
    assert FilledThrough(a, T, Nu, Np, 0) by {
      assert ToMat(a) == ZeroMat(2 * Nu + Np + 1, 2 * Nu + Np + 1);
    }
    FillVelocity(a, Axx, Ayy, Nu, Np, T);
    FillCoupling(a, Px, Py, Nu, Np, T);
    FillMean(a, fl, Nu, Np, T);
    assert forall r, c :: 0 <= r < a.Length0 && 0 <= c < a.Length1 ==> a[r, c] == T[r][c];
    MatEq(ToMat(a), T, 2 * Nu + Np + 1, 2 * Nu + Np + 1);
  }

  /**
   * The matrix of `solveSystem`: a zero matrix of size 2 Nu + Np + 1 filled
   * by the velocity, coupling and mean loops is the saddle-point matrix.
   */
  method AssembleStokesMatrix(Axx: Matrix, Ayy: Matrix, Px: Matrix, Py: Matrix, fl: Vector) returns (M: Matrix)
    requires Axx.Valid() && Ayy.Valid() && Px.Valid() && Py.Valid() && fl.Valid()
    requires Axx.m == Axx.n && Ayy.n == Ayy.m == Axx.n && Px.m == Py.m == Axx.n && Px.n == Py.n == fl.n
    ensures fresh(M) && fresh(M.entries) && M.Valid() && M.n == M.m == 2 * Axx.n + fl.n + 1
    ensures M.Contents() == StokesMatrix(AddMat(Axx.Contents(), Ayy.Contents(), Axx.n, Axx.n), Px.Contents(), Py.Contents(),
                                         fl.Contents(), Axx.n, fl.n)
  {
    var Nu, Np := Axx.n, fl.n;
    VelocityEntries(Axx, Ayy, Px, Py, fl, Nu, Np);
    CouplingEntries(Axx, Ayy, Px, Py, fl, Nu, Np);
    MeanEntries(Axx, Ayy, Px, Py, fl, Nu, Np);
    StokesUnwritten(AddMat(Axx.Contents(), Ayy.Contents(), Nu, Nu), Px.Contents(), Py.Contents(), fl.Contents(), Nu, Np);
    M := FillStokes(Axx, Ayy, Px, Py, fl, Nu, Np, StokesTarget(Axx, Ayy, Px, Py, fl, Nu, Np));
  }

  /** The velocity loop of the right-hand side: b[i] and b[Nu + i]. */
  method FillVelocityLoads(b: Vector, f1: Vector, e1xx: Vector, e1yy: Vector, f2: Vector, e2xx: Vector, e2yy: Vector, ghost t: seq<real>)
    requires b.Valid() && f1.Valid() && e1xx.Valid() && e1yy.Valid() && f2.Valid() && e2xx.Valid() && e2yy.Valid()
    requires e1xx.n == f1.n && e1yy.n == f1.n && f2.n == f1.n && e2xx.n == f1.n && e2yy.n == f1.n && 2 * f1.n <= b.n
    requires b.entries != f1.entries && b.entries != e1xx.entries && b.entries != e1yy.entries
    requires b.entries != f2.entries && b.entries != e2xx.entries && b.entries != e2yy.entries
    requires |t| == b.n
    requires forall i :: 0 <= i < f1.n ==> t[i] == f1.entries[i] + e1xx.entries[i] + e1yy.entries[i]
    requires forall i :: 0 <= i < f1.n ==> t[f1.n + i] == f2.entries[i] + e2xx.entries[i] + e2yy.entries[i]
    modifies b.entries
    ensures b.Valid()
    ensures forall k :: 0 <= k < b.n ==> b.entries[k] == if k < 2 * f1.n then t[k] else old(b.entries[k])
  {
    var Nu := f1.n;
    for i := 0 to Nu
      invariant b.Valid()
      invariant forall k :: 0 <= k < b.n ==> b.entries[k] == if k < i || Nu <= k < Nu + i then t[k] else old(b.entries[k])
    {
      b.entries[i] := f1.entries[i] + e1xx.entries[i] + e1yy.entries[i];
      b.entries[Nu + i] := f2.entries[i] + e2xx.entries[i] + e2yy.entries[i];
    }
  }

  /** The pressure loop of the right-hand side: b[2 Nu + i]. */
  method FillPressureLoads(b: Vector, Nu: nat, e1p: Vector, e2p: Vector, ghost t: seq<real>)
    requires b.Valid() && e1p.Valid() && e2p.Valid() && e2p.n == e1p.n && 2 * Nu + e1p.n <= b.n
    requires b.entries != e1p.entries && b.entries != e2p.entries
    requires |t| == b.n
    requires forall i :: 0 <= i < e1p.n ==> t[2 * Nu + i] == -1.0 * (e1p.entries[i] + e2p.entries[i])
    modifies b.entries
    ensures b.Valid()
    ensures forall k :: 0 <= k < b.n ==> b.entries[k] == if 2 * Nu <= k < 2 * Nu + e1p.n then t[k] else old(b.entries[k])
  {
    for i := 0 to e1p.n
      invariant b.Valid()
      invariant forall k :: 0 <= k < b.n ==> b.entries[k] == if 2 * Nu <= k < 2 * Nu + i then t[k] else old(b.entries[k])
    {
      b.entries[2 * Nu + i] := -1.0 * (e1p.entries[i] + e2p.entries[i]);
    }
  }

  /** The right-hand side of `solveSystem`: a zero vector filled by the velocity and pressure loops. */
  method AssembleStokesLoad(f1: Vector, e1xx: Vector, e1yy: Vector, f2: Vector, e2xx: Vector, e2yy: Vector, e1p: Vector, e2p: Vector)
    returns (b: Vector)
    requires f1.Valid() && e1xx.Valid() && e1yy.Valid() && f2.Valid() && e2xx.Valid() && e2yy.Valid() && e1p.Valid() && e2p.Valid()
    requires e1xx.n == f1.n && e1yy.n == f1.n && f2.n == f1.n && e2xx.n == f1.n && e2yy.n == f1.n && e2p.n == e1p.n
    ensures fresh(b) && fresh(b.entries) && b.Valid() && b.n == 2 * f1.n + e1p.n + 1
    ensures b.Contents() == StokesLoad(f1.Contents(), e1xx.Contents(), e1yy.Contents(), f2.Contents(), e2xx.Contents(), e2yy.Contents(),
                                       e1p.Contents(), e2p.Contents())
  {
    ghost var t := StokesLoad(f1.Contents(), e1xx.Contents(), e1yy.Contents(), f2.Contents(), e2xx.Contents(), e2yy.Contents(),
                              e1p.Contents(), e2p.Contents());
    b := new Vector(2 * f1.n + e1p.n + 1);
    FillVelocityLoads(b, f1, e1xx, e1yy, f2, e2xx, e2yy, t);
    FillPressureLoads(b, f1.n, e1p, e2p, t);
    assert b.Contents() == t;
  }

  // ---------------------------------------------------------------------
  // Putting the constrained DOFs back

  /**
   * The re-insertion walks of `solveSystem`: zeros at B_u, then at
   * Ng_u + B_u, then at 2 Ng_u + B_p, each list ascending.
   */
  function Reinserted(x: seq<real>, Bu: seq<int>, Bp: seq<int>, Ngu: nat, Ngp: nat): (u: seq<real>)
    requires StrictlyIncreasing(Bu) && IndicesBelow(Bu, Ngu) && StrictlyIncreasing(Bp) && IndicesBelow(Bp, Ngp)
    requires |x| == 2 * (Ngu - |Bu|) + (Ngp - |Bp|) + 1 && |Bu| <= Ngu && |Bp| <= Ngp
    ensures |u| == 2 * Ngu + Ngp + 1
  {
    ShiftedIndices(Bu, Ngu, Ngu);
    ShiftedIndices(Bp, 2 * Ngu, Ngp);
    InsertZeros(InsertZeros(InsertZeros(x, Bu), Shift(Bu, Ngu)), Shift(Bp, 2 * Ngu))
  }

  /**
   * The three walks put the zeros block by block: for a vector made of the
   * u1 part a, the u2 part b, the p part c and the multiplier d, the zeros
   * of each walk land inside its own part.
   */
  lemma {:induction false} ReinsertedBlocks(a: seq<real>, b: seq<real>, c: seq<real>, d: seq<real>, Bu: seq<int>, Bp: seq<int>, Ngu: nat, Ngp: nat)
    requires StrictlyIncreasing(Bu) && IndicesBelow(Bu, Ngu) && StrictlyIncreasing(Bp) && IndicesBelow(Bp, Ngp)
    requires |a| + |Bu| == Ngu && |b| + |Bu| == Ngu && |c| + |Bp| == Ngp && |d| == 1
    ensures Reinserted(a + b + c + d, Bu, Bp, Ngu, Ngp) == InsertZeros(a, Bu) + InsertZeros(b, Bu) + InsertZeros(c, Bp) + d
  {
    var a', b', c' := InsertZeros(a, Bu), InsertZeros(b, Bu), InsertZeros(c, Bp);
    Regroup(a, b, c, d);
    // the u1 walk
    InsertZerosPrefix(a, b + (c + d), Bu);
    var s1 := InsertZeros(a + b + c + d, Bu);
    assert s1 == a' + (b + (c + d));
    // the u2 walk
    InsertZerosSuffix(a', b + (c + d), Bu);
    InsertZerosPrefix(b, c + d, Bu);
    assert |a'| == Ngu;
    var s2 := InsertZeros(s1, Shift(Bu, |a'|));
    assert s2 == a' + (b' + (c + d));
    Regroup(a', b', c, d);
    // the p walk
    InsertZerosSuffix(a' + b', c + d, Bp);
    InsertZerosPrefix(c, d, Bp);
    assert |a' + b'| == 2 * Ngu;
    assert InsertZeros(s2, Shift(Bp, |a' + b'|)) == (a' + b') + (c' + d);
    Regroup(a', b', c', d);
  }

  /** Concatenation regrouped. */
  lemma Regroup<T>(a: seq<T>, b: seq<T>, c: seq<T>, d: seq<T>)
    ensures a + b + c + d == a + (b + (c + d))
    ensures a + (b + (c + d)) == (a + b) + (c + d)
  {
  }


  /** The first part of a four-part concatenation, recovered by slicing. */
  lemma FirstOfFour<T>(a: seq<T>, b: seq<T>, c: seq<T>, d: seq<T>, i: nat)
    requires i == |a|
    ensures (a + b + c + d)[..i] == a
  {
  }

  /** The second part of a four-part concatenation, recovered by slicing. */
  lemma SecondOfFour<T>(a: seq<T>, b: seq<T>, c: seq<T>, d: seq<T>, i: nat, j: nat)
    requires i == |a| && j == i + |b|
    ensures (a + b + c + d)[i..j] == b
  {
  }

  /** The third part of a four-part concatenation, recovered by slicing. */
  lemma ThirdOfFour<T>(a: seq<T>, b: seq<T>, c: seq<T>, d: seq<T>, j: nat, k: nat)
    requires j == |a| + |b| && k == j + |c|
    ensures (a + b + c + d)[j..k] == c
  {
  }


  /** A sequence is the concatenation of its four slices at the given cuts. */
  lemma SplitFour<T>(x: seq<T>, i: nat, j: nat, k: nat)
    requires i <= j <= k <= |x|
    ensures x == x[..i] + x[i..j] + x[j..k] + x[k..]
  {
  }

  /** One reinserted block of `u`, starting at `lo`: zero at the boundary positions, and the interior values come back out. */
  lemma {:induction false} ReinsertedBlock(u: seq<real>, s: seq<real>, B: seq<int>, n: nat, lo: nat, hi: nat)
    requires StrictlyIncreasing(B) && IndicesBelow(B, n) && |s| + |B| == n
    requires hi == lo + n <= |u| && u[lo..hi] == InsertZeros(s, B)
    ensures forall k :: 0 <= k < |B| ==> u[lo + B[k]] == 0.0
    ensures RemoveIndices(u[lo..hi], B) == s
  {
    InsertZerosAtBoundary(s, B);
    RemoveAfterReinsert(s, B);
    forall k | 0 <= k < |B|
      ensures u[lo + B[k]] == 0.0
    {
      assert u[lo + B[k]] == u[lo..hi][B[k]];
    }
  }

  /**
   * The re-inserted vector is zero at every constrained DOF of each block,
   * and dropping those zeros from a block gives back that block's solved
   * unknowns.
   */
  lemma {:induction false} ReinsertedConstrained(x: seq<real>, Bu: seq<int>, Bp: seq<int>, Ngu: nat, Ngp: nat)
    requires StrictlyIncreasing(Bu) && IndicesBelow(Bu, Ngu) && StrictlyIncreasing(Bp) && IndicesBelow(Bp, Ngp)
    requires |x| == 2 * (Ngu - |Bu|) + (Ngp - |Bp|) + 1 && |Bu| <= Ngu && |Bp| <= Ngp
    ensures var u, Nu, Np := Reinserted(x, Bu, Bp, Ngu, Ngp), Ngu - |Bu|, Ngp - |Bp|;
      && (forall k :: 0 <= k < |Bu| ==> u[Bu[k]] == 0.0 && u[Ngu + Bu[k]] == 0.0)
      && (forall k :: 0 <= k < |Bp| ==> u[2 * Ngu + Bp[k]] == 0.0)
      && RemoveIndices(u[..Ngu], Bu) == x[..Nu]
      && RemoveIndices(u[Ngu..2 * Ngu], Bu) == x[Nu..2 * Nu]
      && RemoveIndices(u[2 * Ngu..2 * Ngu + Ngp], Bp) == x[2 * Nu..2 * Nu + Np]
  {
    var Nu, Np := Ngu - |Bu|, Ngp - |Bp|;
    var a, b, c, d := x[..Nu], x[Nu..2 * Nu], x[2 * Nu..2 * Nu + Np], x[2 * Nu + Np..];
    SplitFour(x, Nu, 2 * Nu, 2 * Nu + Np);
    ReinsertedFirstBlock(a, b, c, d, Bu, Bp, Ngu, Ngp);
    ReinsertedSecondBlock(a, b, c, d, Bu, Bp, Ngu, Ngp);
    ReinsertedThirdBlock(a, b, c, d, Bu, Bp, Ngu, Ngp);
    var u := Reinserted(x, Bu, Bp, Ngu, Ngp);
    assert u[..Ngu] == u[0..Ngu];
    forall k | 0 <= k < |Bu|
      ensures u[Bu[k]] == 0.0
    {
      assert u[0 + Bu[k]] == 0.0;
    }
  }

  /** The u1 block of the re-inserted vector. */
  lemma {:induction false} ReinsertedFirstBlock(a: seq<real>, b: seq<real>, c: seq<real>, d: seq<real>, Bu: seq<int>, Bp: seq<int>, Ngu: nat, Ngp: nat)
    requires StrictlyIncreasing(Bu) && IndicesBelow(Bu, Ngu) && StrictlyIncreasing(Bp) && IndicesBelow(Bp, Ngp)
    requires |a| + |Bu| == Ngu && |b| + |Bu| == Ngu && |c| + |Bp| == Ngp && |d| == 1
    ensures var u := Reinserted(a + b + c + d, Bu, Bp, Ngu, Ngp);
      && (forall k :: 0 <= k < |Bu| ==> u[0 + Bu[k]] == 0.0)
      && RemoveIndices(u[0..Ngu], Bu) == a
  {
    var a', b', c' := InsertZeros(a, Bu), InsertZeros(b, Bu), InsertZeros(c, Bp);
    ReinsertedBlocks(a, b, c, d, Bu, Bp, Ngu, Ngp);
    FirstOfFour(a', b', c', d, Ngu);
    var u := Reinserted(a + b + c + d, Bu, Bp, Ngu, Ngp);
    assert u[0..Ngu] == u[..Ngu];
    ReinsertedBlock(u, a, Bu, Ngu, 0, Ngu);
  }

  /** The u2 block of the re-inserted vector. */
  lemma {:induction false} ReinsertedSecondBlock(a: seq<real>, b: seq<real>, c: seq<real>, d: seq<real>, Bu: seq<int>, Bp: seq<int>, Ngu: nat, Ngp: nat)
    requires StrictlyIncreasing(Bu) && IndicesBelow(Bu, Ngu) && StrictlyIncreasing(Bp) && IndicesBelow(Bp, Ngp)
    requires |a| + |Bu| == Ngu && |b| + |Bu| == Ngu && |c| + |Bp| == Ngp && |d| == 1
    ensures var u := Reinserted(a + b + c + d, Bu, Bp, Ngu, Ngp);
      && (forall k :: 0 <= k < |Bu| ==> u[Ngu + Bu[k]] == 0.0)
      && RemoveIndices(u[Ngu..2 * Ngu], Bu) == b
  {
    var a', b', c' := InsertZeros(a, Bu), InsertZeros(b, Bu), InsertZeros(c, Bp);
    ReinsertedBlocks(a, b, c, d, Bu, Bp, Ngu, Ngp);
    SecondOfFour(a', b', c', d, Ngu, 2 * Ngu);
    ReinsertedBlock(Reinserted(a + b + c + d, Bu, Bp, Ngu, Ngp), b, Bu, Ngu, Ngu, 2 * Ngu);
  }

  /** The p block of the re-inserted vector. */
  lemma {:induction false} ReinsertedThirdBlock(a: seq<real>, b: seq<real>, c: seq<real>, d: seq<real>, Bu: seq<int>, Bp: seq<int>, Ngu: nat, Ngp: nat)
    requires StrictlyIncreasing(Bu) && IndicesBelow(Bu, Ngu) && StrictlyIncreasing(Bp) && IndicesBelow(Bp, Ngp)
    requires |a| + |Bu| == Ngu && |b| + |Bu| == Ngu && |c| + |Bp| == Ngp && |d| == 1
    ensures var u := Reinserted(a + b + c + d, Bu, Bp, Ngu, Ngp);
      && (forall k :: 0 <= k < |Bp| ==> u[2 * Ngu + Bp[k]] == 0.0)
      && RemoveIndices(u[2 * Ngu..2 * Ngu + Ngp], Bp) == c
  {
    var a', b', c' := InsertZeros(a, Bu), InsertZeros(b, Bu), InsertZeros(c, Bp);
    ReinsertedBlocks(a, b, c, d, Bu, Bp, Ngu, Ngp);
    ThirdOfFour(a', b', c', d, 2 * Ngu, 2 * Ngu + Ngp);
    var u := Reinserted(a + b + c + d, Bu, Bp, Ngu, Ngp);
    assert u[2 * Ngu..2 * Ngu + Ngp] == c';
    ReinsertedBlock(u, c, Bp, Ngp, 2 * Ngu, 2 * Ngu + Ngp);
  }

  // ---------------------------------------------------------------------
  // The system the problem solves

  /**
   * The assembled pieces of the problem before any reduction: the viscous
   * matrices Muu_xx and Muu_yy, the couplings Mpu_0x and Mpu_0y (pressure
   * rows, velocity columns), the body-force loads of the velocity space and
   * the mean weights f_l of the pressure space.
   */
  datatype Assembled = Assembled(Mxx: Mat, Myy: Mat, Px: Mat, Py: Mat, f1: seq<real>, f2: seq<real>, fl: seq<real>)

  /** The pieces fit a velocity space of Ngu DOFs and a pressure space of Ngp DOFs. */
  predicate Shaped(a: Assembled, Ngu: int, Ngp: int)
  {
    && IsShape(a.Mxx, Ngu, Ngu) && IsShape(a.Myy, Ngu, Ngu) && IsShape(a.Px, Ngp, Ngu) && IsShape(a.Py, Ngp, Ngu)
    && |a.f1| == Ngu && |a.f2| == Ngu && |a.fl| == Ngp
  }

  /** Two ascending boundary lists, of the velocity and of the pressure DOFs. */
  predicate Lists(Bu: seq<int>, Bp: seq<int>, Ngu: int, Ngp: int)
  {
    StrictlyIncreasing(Bu) && IndicesBelow(Bu, Ngu) && StrictlyIncreasing(Bp) && IndicesBelow(Bp, Ngp)
  }

  /** A boundary list names at most as many DOFs as its space has. */
  lemma ListsCounts(Bu: seq<int>, Bp: seq<int>, Ngu: nat, Ngp: nat)
    requires Lists(Bu, Bp, Ngu, Ngp)
    ensures |Bu| <= Ngu && |Bp| <= Ngp
  {
    SortedCount(Bu, Ngu);
    SortedCount(Bp, Ngp);
  }

  /** The pieces of the problem on mesh m with velocity degree pu and pressure degree pp. */
  ghost function AssembledOf(m: Mesh2D, pu: int, pp: int, t: StokesTerms): (a: Assembled)
    requires m.Valid() && pu > 0 && pp > 0
    ensures Shaped(a, NumDofs(m, pu), NumDofs(m, pp))
  {
    Assembled(MassPair(m, pu, pu, t.viscousX), MassPair(m, pu, pu, t.viscousY), MassPair(m, pp, pu, t.pressureX),
              MassPair(m, pp, pu, t.pressureY), Load2D(m, pu, t.force1), Load2D(m, pu, t.force2), Load2D(m, pp, t.mean))
  }

  /**
   * The matrix `solveSystem` solves: Muu_xx + Muu_yy without the velocity
   * boundary rows and columns on both velocity blocks, the couplings
   * without the pressure boundary rows and the velocity boundary columns,
   * the mean weights without the pressure boundary entries.
   */
  function SaddleOperator(a: Assembled, Bu: seq<int>, Bp: seq<int>, Ngu: nat, Ngp: nat): (S: Mat)
    requires Shaped(a, Ngu, Ngp) && Lists(Bu, Bp, Ngu, Ngp)
    ensures IsSquare(S) && |S| + 2 * |Bu| + |Bp| == 2 * Ngu + Ngp + 1
  {
    ListsCounts(Bu, Bp, Ngu, Ngp);
    var Nu, Np := Ngu - |Bu|, Ngp - |Bp|;
    StokesMatrix(AddMat(RemoveRowsCols(a.Mxx, Bu), RemoveRowsCols(a.Myy, Bu), Nu, Nu),
                 RemoveRowsAndColumns(a.Px, Bp, Bu, Ngu), RemoveRowsAndColumns(a.Py, Bp, Bu, Ngu), RemoveIndices(a.fl, Bp), Nu, Np)
  }

  /**
   * The right-hand side `solveSystem` solves, with U1 and U2 the current u1
   * and u2 of every velocity node: each load and essential vector without
   * its boundary entries.
   */
  function SaddleRHS(a: Assembled, Bu: seq<int>, Bp: seq<int>, Ngu: nat, Ngp: nat, U1: seq<real>, U2: seq<real>): (r: seq<real>)
    requires Shaped(a, Ngu, Ngp) && Lists(Bu, Bp, Ngu, Ngp) && |U1| == Ngu && |U2| == Ngu
    ensures |r| + 2 * |Bu| + |Bp| == 2 * Ngu + Ngp + 1
  {
    ListsCounts(Bu, Bp, Ngu, Ngp);
    StokesLoad(RemoveIndices(a.f1, Bu),
               RemoveIndices(EssentialVector(a.Mxx, U1, Bu, Ngu), Bu), RemoveIndices(EssentialVector(a.Myy, U1, Bu, Ngu), Bu),
               RemoveIndices(a.f2, Bu),
               RemoveIndices(EssentialVector(a.Mxx, U2, Bu, Ngu), Bu), RemoveIndices(EssentialVector(a.Myy, U2, Bu, Ngu), Bu),
               RemoveIndices(EssentialVector(a.Px, U1, Bu, Ngp), Bp), RemoveIndices(EssentialVector(a.Py, U2, Bu, Ngp), Bp))
  }

  /** What `solveSystem` returns: the solved unknowns with zeros put back at the constrained DOFs of each block. */
  function SaddleSolution(a: Assembled, Bu: seq<int>, Bp: seq<int>, Ngu: nat, Ngp: nat, U1: seq<real>, U2: seq<real>): (u: seq<real>)
    requires Shaped(a, Ngu, Ngp) && Lists(Bu, Bp, Ngu, Ngp) && |U1| == Ngu && |U2| == Ngu
    requires NonzeroPivots(SaddleOperator(a, Bu, Bp, Ngu, Ngp))
    ensures |u| == 2 * Ngu + Ngp + 1
  {
    ListsCounts(Bu, Bp, Ngu, Ngp);
    Reinserted(LUSolution(SaddleOperator(a, Bu, Bp, Ngu, Ngp), SaddleRHS(a, Bu, Bp, Ngu, Ngp, U1, U2)), Bu, Bp, Ngu, Ngp)
  }

  /**
   * The inverse of the re-insertion: each block of a vector of length
   * 2 Ng_u + Ng_p + 1 without its constrained entries, then the multiplier.
   */
  function Compressed(u: seq<real>, Bu: seq<int>, Bp: seq<int>, Ngu: nat, Ngp: nat): (x: seq<real>)
    requires StrictlyIncreasing(Bu) && IndicesBelow(Bu, Ngu) && StrictlyIncreasing(Bp) && IndicesBelow(Bp, Ngp)
    requires |u| == 2 * Ngu + Ngp + 1
    ensures |x| + 2 * |Bu| + |Bp| == |u|
  {
    RemoveIndices(u[..Ngu], Bu) + RemoveIndices(u[Ngu..2 * Ngu], Bu) + RemoveIndices(u[2 * Ngu..2 * Ngu + Ngp], Bp) + u[2 * Ngu + Ngp..]
  }

  /** Dropping the re-inserted zeros gives back the solved vector. */
  lemma {:induction false} CompressReinserted(x: seq<real>, Bu: seq<int>, Bp: seq<int>, Ngu: nat, Ngp: nat)
    requires StrictlyIncreasing(Bu) && IndicesBelow(Bu, Ngu) && StrictlyIncreasing(Bp) && IndicesBelow(Bp, Ngp)
    requires |x| == 2 * (Ngu - |Bu|) + (Ngp - |Bp|) + 1 && |Bu| <= Ngu && |Bp| <= Ngp
    ensures Compressed(Reinserted(x, Bu, Bp, Ngu, Ngp), Bu, Bp, Ngu, Ngp) == x
  {
    var Nu, Np := Ngu - |Bu|, Ngp - |Bp|;
    var a, b, c, d := x[..Nu], x[Nu..2 * Nu], x[2 * Nu..2 * Nu + Np], x[2 * Nu + Np..];
    SplitFour(x, Nu, 2 * Nu, 2 * Nu + Np);
    CompressBlocks(a, b, c, d, Bu, Bp, Ngu, Ngp);
  }

  /** The round trip for a vector given by its four parts. */
  lemma {:induction false} CompressBlocks(a: seq<real>, b: seq<real>, c: seq<real>, d: seq<real>, Bu: seq<int>, Bp: seq<int>, Ngu: nat, Ngp: nat)
    requires StrictlyIncreasing(Bu) && IndicesBelow(Bu, Ngu) && StrictlyIncreasing(Bp) && IndicesBelow(Bp, Ngp)
    requires |a| + |Bu| == Ngu && |b| + |Bu| == Ngu && |c| + |Bp| == Ngp && |d| == 1
    ensures Compressed(Reinserted(a + b + c + d, Bu, Bp, Ngu, Ngp), Bu, Bp, Ngu, Ngp) == a + b + c + d
  {
    var u := Reinserted(a + b + c + d, Bu, Bp, Ngu, Ngp);
    ReinsertedFirstBlock(a, b, c, d, Bu, Bp, Ngu, Ngp);
    ReinsertedSecondBlock(a, b, c, d, Bu, Bp, Ngu, Ngp);
    ReinsertedThirdBlock(a, b, c, d, Bu, Bp, Ngu, Ngp);
    ReinsertedMultiplier(a, b, c, d, Bu, Bp, Ngu, Ngp);
    assert u[..Ngu] == u[0..Ngu];
  }

  /** The last entry of the re-inserted vector is the multiplier. */
  lemma {:induction false} ReinsertedMultiplier(a: seq<real>, b: seq<real>, c: seq<real>, d: seq<real>, Bu: seq<int>, Bp: seq<int>, Ngu: nat, Ngp: nat)
    requires StrictlyIncreasing(Bu) && IndicesBelow(Bu, Ngu) && StrictlyIncreasing(Bp) && IndicesBelow(Bp, Ngp)
    requires |a| + |Bu| == Ngu && |b| + |Bu| == Ngu && |c| + |Bp| == Ngp && |d| == 1
    ensures Reinserted(a + b + c + d, Bu, Bp, Ngu, Ngp)[2 * Ngu + Ngp..] == d
  {
    var a', b', c' := InsertZeros(a, Bu), InsertZeros(b, Bu), InsertZeros(c, Bp);
    ReinsertedBlocks(a, b, c, d, Bu, Bp, Ngu, Ngp);
    assert |a' + b' + c'| == 2 * Ngu + Ngp;
    assert a' + b' + c' + d == (a' + b' + c') + d;
  }

  /**
   * The vector `solveSystem` returns is 0 at every constrained DOF of each
   * block, and its unknowns satisfy the factored saddle-point system.
   */
  lemma {:induction false} SaddleSolutionSolves(a: Assembled, Bu: seq<int>, Bp: seq<int>, Ngu: nat, Ngp: nat, U1: seq<real>, U2: seq<real>)
    requires Shaped(a, Ngu, Ngp) && Lists(Bu, Bp, Ngu, Ngp) && |U1| == Ngu && |U2| == Ngu
    requires NonzeroPivots(SaddleOperator(a, Bu, Bp, Ngu, Ngp))
    ensures var S, u := SaddleOperator(a, Bu, Bp, Ngu, Ngp), SaddleSolution(a, Bu, Bp, Ngu, Ngp, U1, U2);
      && (forall k :: 0 <= k < |Bu| ==> u[Bu[k]] == 0.0 && u[Ngu + Bu[k]] == 0.0)
      && (forall k :: 0 <= k < |Bp| ==> u[2 * Ngu + Bp[k]] == 0.0)
      && LowerTimes(Factors(S), UpperTimes(Factors(S), Compressed(u, Bu, Bp, Ngu, Ngp))) == SaddleRHS(a, Bu, Bp, Ngu, Ngp, U1, U2)
  {
    ListsCounts(Bu, Bp, Ngu, Ngp);
    var S, r := SaddleOperator(a, Bu, Bp, Ngu, Ngp), SaddleRHS(a, Bu, Bp, Ngu, Ngp, U1, U2);
    var x := LUSolution(S, r);
    ReinsertedConstrained(x, Bu, Bp, Ngu, Ngp);
    CompressReinserted(x, Bu, Bp, Ngu, Ngp);
    SolutionSatisfiesFactors(S, r);
  }

  /** A mass matrix of one space with a symmetric integrator is symmetric. */
  lemma {:induction false} ViscousSymmetric(m: Mesh2D, pu: int, local: (int, int, int) -> real)
    requires m.Valid() && pu > 0 && SymmetricIntegrator(local, m.size, RowWidth(pu))
    ensures SymmetricMat(MassPair(m, pu, pu, local))
  {
    var A := MassPair(m, pu, pu, local);
    forall I, J | 0 <= I < |A| && 0 <= J < |A|
      ensures A[I][J] == A[J][I]
    {
      MassMatrix2DShape(m, pu, local, I, J);
    }
  }

  /** The saddle-point matrix is symmetric when both viscous matrices are. */
  lemma {:induction false} SaddleOperatorSymmetric(a: Assembled, Bu: seq<int>, Bp: seq<int>, Ngu: nat, Ngp: nat)
    requires Shaped(a, Ngu, Ngp) && Lists(Bu, Bp, Ngu, Ngp)
    requires SymmetricMat(a.Mxx) && SymmetricMat(a.Myy)
    ensures SymmetricMat(SaddleOperator(a, Bu, Bp, Ngu, Ngp))
  {
    ListsCounts(Bu, Bp, Ngu, Ngp);
    var Nu, Np := Ngu - |Bu|, Ngp - |Bp|;
    ViscousSumSymmetric(a.Mxx, a.Myy, Bu, Ngu);
    StokesMatrixSymmetric(AddMat(RemoveRowsCols(a.Mxx, Bu), RemoveRowsCols(a.Myy, Bu), Nu, Nu),
                          RemoveRowsAndColumns(a.Px, Bp, Bu, Ngu), RemoveRowsAndColumns(a.Py, Bp, Bu, Ngu), RemoveIndices(a.fl, Bp), Nu, Np);
  }

  /** The sum of two symmetric viscous matrices, each without the same boundary rows and columns, is symmetric. */
  lemma {:induction false} ViscousSumSymmetric(A: Mat, B: Mat, Bu: seq<int>, Ngu: nat)
    requires IsShape(A, Ngu, Ngu) && IsShape(B, Ngu, Ngu) && StrictlyIncreasing(Bu) && IndicesBelow(Bu, Ngu)
    requires SymmetricMat(A) && SymmetricMat(B) && |Bu| <= Ngu
    ensures SymmetricMat(AddMat(RemoveRowsCols(A, Bu), RemoveRowsCols(B, Bu), Ngu - |Bu|, Ngu - |Bu|))
  {
    RemoveRowsColsSymmetric(A, Bu);
    RemoveRowsColsSymmetric(B, Bu);
    AddMatSymmetric(RemoveRowsCols(A, Bu), RemoveRowsCols(B, Bu), Ngu - |Bu|);
  }

  /**
   * With homogeneous velocity boundary data (u1 = u2 = 0 at every
   * constrained velocity DOF) the essential vectors drop out: the velocity
   * rows carry the reduced body forces and every other row is 0.
   */
  lemma {:induction false} HomogeneousSaddleRHS(a: Assembled, Bu: seq<int>, Bp: seq<int>, Ngu: nat, Ngp: nat, U1: seq<real>, U2: seq<real>)
    requires Shaped(a, Ngu, Ngp) && Lists(Bu, Bp, Ngu, Ngp) && |U1| == Ngu && |U2| == Ngu
    requires forall k :: 0 <= k < |Bu| ==> U1[Bu[k]] == 0.0 && U2[Bu[k]] == 0.0
    ensures |Bp| <= Ngp
    ensures SaddleRHS(a, Bu, Bp, Ngu, Ngp, U1, U2) == RemoveIndices(a.f1, Bu) + RemoveIndices(a.f2, Bu) + Zeros(Ngp - |Bp| + 1)
  {
    HomogeneousEssentials(a, Bu, Bp, Ngu, Ngp, U1, U2);
    var f1, f2 := RemoveIndices(a.f1, Bu), RemoveIndices(a.f2, Bu);
    var zu, zp := Zeros(Ngu - |Bu|), Zeros(Ngp - |Bp|);
    assert SaddleRHS(a, Bu, Bp, Ngu, Ngp, U1, U2) == StokesLoad(f1, zu, zu, f2, zu, zu, zp, zp);
    StokesLoadZeros(f1, f2, Ngp - |Bp|);
  }

  /** With u1 = u2 = 0 at every constrained velocity DOF, each reduced essential vector is 0. */
  lemma {:induction false} HomogeneousEssentials(a: Assembled, Bu: seq<int>, Bp: seq<int>, Ngu: nat, Ngp: nat, U1: seq<real>, U2: seq<real>)
    requires Shaped(a, Ngu, Ngp) && Lists(Bu, Bp, Ngu, Ngp) && |U1| == Ngu && |U2| == Ngu
    requires forall k :: 0 <= k < |Bu| ==> U1[Bu[k]] == 0.0 && U2[Bu[k]] == 0.0
    ensures |Bu| <= Ngu && |Bp| <= Ngp
    ensures RemoveIndices(EssentialVector(a.Mxx, U1, Bu, Ngu), Bu) == Zeros(Ngu - |Bu|)
    ensures RemoveIndices(EssentialVector(a.Myy, U1, Bu, Ngu), Bu) == Zeros(Ngu - |Bu|)
    ensures RemoveIndices(EssentialVector(a.Mxx, U2, Bu, Ngu), Bu) == Zeros(Ngu - |Bu|)
    ensures RemoveIndices(EssentialVector(a.Myy, U2, Bu, Ngu), Bu) == Zeros(Ngu - |Bu|)
    ensures RemoveIndices(EssentialVector(a.Px, U1, Bu, Ngp), Bp) == Zeros(Ngp - |Bp|)
    ensures RemoveIndices(EssentialVector(a.Py, U2, Bu, Ngp), Bp) == Zeros(Ngp - |Bp|)
  {
    ListsCounts(Bu, Bp, Ngu, Ngp);
    EssentialVectorHomogeneous(a.Mxx, U1, Bu, Ngu);
    EssentialVectorHomogeneous(a.Myy, U1, Bu, Ngu);
    EssentialVectorHomogeneous(a.Mxx, U2, Bu, Ngu);
    EssentialVectorHomogeneous(a.Myy, U2, Bu, Ngu);
    EssentialVectorHomogeneous(a.Px, U1, Bu, Ngp);
    EssentialVectorHomogeneous(a.Py, U2, Bu, Ngp);
    EllipticSolver2D.RemoveIndicesZeros(Ngu, Bu);
    EllipticSolver2D.RemoveIndicesZeros(Ngp, Bp);
  }

  /** Zero essential vectors add nothing to the loads, and the pressure and mean rows are 0. */
  lemma {:induction false} StokesLoadZeros(f1: seq<real>, f2: seq<real>, Np: nat)
    requires |f2| == |f1|
    ensures var zu, zp := Zeros(|f1|), Zeros(Np); StokesLoad(f1, zu, zu, f2, zu, zu, zp, zp) == f1 + f2 + Zeros(Np + 1)
  {
    var zu, zp := Zeros(|f1|), Zeros(Np);
    assert Add(Add(f1, zu), zu) == f1;
    assert Add(Add(f2, zu), zu) == f2;
    assert Neg(Add(zp, zp)) + [0.0] == Zeros(Np + 1);
  }

  /** `solve(M, b)` followed by the three ascending `insert(0, i)` walks. */
  method SolveAndReinsertBlocks(S: Matrix, r: Vector, Bu: seq<int>, Bp: seq<int>, Ngu: nat, Ngp: nat) returns (x: Vector)
    requires StrictlyIncreasing(Bu) && IndicesBelow(Bu, Ngu) && StrictlyIncreasing(Bp) && IndicesBelow(Bp, Ngp)
    requires |Bu| <= Ngu && |Bp| <= Ngp
    requires S.Valid() && r.Valid() && S.n == S.m == r.n == 2 * (Ngu - |Bu|) + (Ngp - |Bp|) + 1
    requires NonzeroPivots(S.Contents())
    modifies S.entries
    ensures fresh(x) && x.Valid() && x.n == 2 * Ngu + Ngp + 1
    ensures x.Contents() == Reinserted(LUSolution(old(S.Contents()), r.Contents()), Bu, Bp, Ngu, Ngp)
  {
    x := Solve(S, r);
    ShiftedIndices(Bu, Ngu, Ngu);
    ShiftedIndices(Bp, 2 * Ngu, Ngp);
    InsertBoundaryZeros(x, Bu);
    InsertBoundaryZeros(x, Shift(Bu, Ngu));
    InsertBoundaryZeros(x, Shift(Bp, 2 * Ngu));
  }

  // ---------------------------------------------------------------------
  // Writing the solution into the spaces

  /** The nodes with unknown v of node i set to values[i]. */
  function WithUnknown(nodes: seq<FENode2D>, v: nat, values: seq<real>): (r: seq<FENode2D>)
    requires |values| == |nodes| && forall i :: 0 <= i < |nodes| ==> v < |nodes[i].vars|
    ensures |r| == |nodes| && forall i :: 0 <= i < |nodes| ==> |r[i].vars| == |nodes[i].vars|
  {
    seq(|nodes|, i requires 0 <= i < |nodes| => nodes[i].(vars := nodes[i].vars[v := values[i]]))
  }

  /**
   * After writing, unknown v reads back as the values written, every other
   * unknown is as before, and positions, tags and corner flags are kept.
   */
  lemma {:induction false} WithUnknownReadBack(nodes: seq<FENode2D>, v: nat, values: seq<real>, w: nat)
    requires |values| == |nodes| && forall i :: 0 <= i < |nodes| ==> v < |nodes[i].vars| && w < |nodes[i].vars|
    ensures Unknowns(WithUnknown(nodes, v, values), w) == if w == v then values else Unknowns(nodes, w)
    ensures forall i :: 0 <= i < |nodes| ==> SameSite(WithUnknown(nodes, v, values)[i], nodes[i])
  {
  }

  /**
   * What `update` leaves in the spaces: u1 and u2 of velocity node i are
   * u[i] and u[Ng_u + i], p of pressure node i is u[2 Ng_u + i]; the last
   * entry, the multiplier, is not stored.
   */
  ghost predicate SolutionWritten(beforeU: seq<FENode2D>, beforeP: seq<FENode2D>, afterU: seq<FENode2D>, afterP: seq<FENode2D>,
                                  u: seq<real>, Ngu: nat, Ngp: nat)
  {
    && |beforeU| == Ngu && |beforeP| == Ngp && |u| == 2 * Ngu + Ngp + 1
    && (forall i :: 0 <= i < Ngu ==> |beforeU[i].vars| == 2)
    && (forall i :: 0 <= i < Ngp ==> |beforeP[i].vars| == 1)
    && afterU == WithUnknown(WithUnknown(beforeU, 0, u[..Ngu]), 1, u[Ngu..2 * Ngu])
    && afterP == WithUnknown(beforeP, 0, u[2 * Ngu..2 * Ngu + Ngp])
  }

  /** The written unknowns, read back block by block with the multiplier after them, are the solution vector. */
  lemma {:induction false} SolutionWrittenReadsBack(beforeU: seq<FENode2D>, beforeP: seq<FENode2D>, afterU: seq<FENode2D>, afterP: seq<FENode2D>,
                                                    u: seq<real>, Ngu: nat, Ngp: nat)
    requires SolutionWritten(beforeU, beforeP, afterU, afterP, u, Ngu, Ngp)
    ensures forall i :: 0 <= i < Ngu ==> |afterU[i].vars| == 2 && SameSite(afterU[i], beforeU[i])
    ensures forall i :: 0 <= i < Ngp ==> |afterP[i].vars| == 1 && SameSite(afterP[i], beforeP[i])
    ensures Unknowns(afterU, 0) + Unknowns(afterU, 1) + Unknowns(afterP, 0) + u[2 * Ngu + Ngp..] == u
  {
    var mid := WithUnknown(beforeU, 0, u[..Ngu]);
    WithUnknownReadBack(beforeU, 0, u[..Ngu], 0);
    WithUnknownReadBack(mid, 1, u[Ngu..2 * Ngu], 0);
    WithUnknownReadBack(mid, 1, u[Ngu..2 * Ngu], 1);
    WithUnknownReadBack(beforeP, 0, u[2 * Ngu..2 * Ngu + Ngp], 0);
    SplitFour(u, Ngu, 2 * Ngu, 2 * Ngu + Ngp);
  }

  // ---------------------------------------------------------------------
  // The reduced pieces

  /**
   * M, e1 and e2 are one viscous matrix A of a space with Ng DOFs and the
   * essential vectors of the unknowns U1 and U2 made from it, each without
   * its boundary rows, columns or entries B.
   */
  ghost predicate ViscousReduced(M: Matrix, e1: Vector, e2: Vector, A: Mat, B: seq<int>, Ng: nat, U1: seq<real>, U2: seq<real>)
    reads M, M.entries, e1, e1.entries, e2, e2.entries
  {
    && IsShape(A, Ng, Ng) && |U1| == Ng && |U2| == Ng && StrictlyIncreasing(B) && IndicesBelow(B, Ng)
    && M.Valid() && e1.Valid() && e2.Valid() && M.n + |B| == Ng && M.m == M.n && e1.n == M.n && e2.n == M.n
    && M.Contents() == RemoveRowsCols(A, B)
    && e1.Contents() == RemoveIndices(EssentialVector(A, U1, B, Ng), B)
    && e2.Contents() == RemoveIndices(EssentialVector(A, U2, B, Ng), B)
  }

  /**
   * P and e are one coupling A (Ngp rows, Ngu columns) without the pressure
   * boundary rows Bp and the velocity boundary columns Bu, and the essential
   * vector of the velocity unknowns U made from it without the entries Bp.
   */
  ghost predicate CouplingReduced(P: Matrix, e: Vector, A: Mat, Bu: seq<int>, Bp: seq<int>, Ngu: nat, Ngp: nat, U: seq<real>)
    reads P, P.entries, e, e.entries
  {
    && IsShape(A, Ngp, Ngu) && |U| == Ngu && Lists(Bu, Bp, Ngu, Ngp)
    && P.Valid() && e.Valid() && P.n + |Bp| == Ngp && P.m + |Bu| == Ngu && e.n == P.n
    && P.Contents() == RemoveRowsAndColumns(A, Bp, Bu, Ngu)
    && e.Contents() == RemoveIndices(EssentialVector(A, U, Bu, Ngp), Bp)
  }

  /** f is the load b of a space with Ng DOFs without its boundary entries B. */
  ghost predicate LoadReduced(f: Vector, b: seq<real>, B: seq<int>, Ng: nat)
    reads f, f.entries
  {
    && |b| == Ng && StrictlyIncreasing(B) && IndicesBelow(B, Ng)
    && f.Valid() && f.n + |B| == Ng && f.Contents() == RemoveIndices(b, B)
  }

  /**
   * One viscous matrix of a space with two unknowns per node and the
   * essential vectors of u1 and u2 made from it, each without its boundary
   * rows, columns or entries.
   */
  method ReducedViscous(fem: FEM2D, local: (int, int, int) -> real, ghost A: Mat, ghost U1: seq<real>, ghost U2: seq<real>)
    returns (M: Matrix, e1: Vector, e2: Vector)
    requires fem.Valid() && fem.N == 2 && A == MassPair(fem.mesh, fem.polynomialOrder, fem.polynomialOrder, local)
    requires forall j :: 0 <= j < fem.Ng ==> |fem.FENodes[j].vars| == 2
    requires U1 == Unknowns(fem.FENodes[..], 0) && U2 == Unknowns(fem.FENodes[..], 1)
    ensures fresh(M) && fresh(e1) && fresh(e2)
    ensures ViscousReduced(M, e1, e2, A, fem.boundaryIndices, fem.Ng, U1, U2)
  {
    SpaceFacts(fem);
    fem.BoundaryIndicesAreConstrained();
    M := MassMatrix2D(fem, local);
    e1 := EssentialBoundaryVector2D(fem, 0, M);
    e2 := EssentialBoundaryVector2D(fem, 1, M);
    ReduceTriple(M, e1, e2, fem.boundaryIndices);
  }

  /** The three removals of one viscous matrix and its two essential vectors. */
  method ReduceTriple(M: Matrix, e1: Vector, e2: Vector, B: seq<int>)
    requires M.Valid() && e1.Valid() && e2.Valid() && e1 != e2 && M.n == M.m == e1.n == e2.n
    requires StrictlyIncreasing(B) && IndicesBelow(B, M.n)
    modifies M, e1, e2
    ensures M.Valid() && e1.Valid() && e2.Valid() && M.n == M.m == e1.n == e2.n == old(M.n) - |B|
    ensures fresh(M.entries) || M.entries == old(M.entries)
    ensures M.Contents() == RemoveRowsCols(old(M.Contents()), B)
    ensures e1.Contents() == RemoveIndices(old(e1.Contents()), B) && e2.Contents() == RemoveIndices(old(e2.Contents()), B)
  {
    RemoveBoundaryRowsCols(M, B);
    RemoveBoundaryIndices(e1, B);
    RemoveBoundaryIndices(e2, B);
  }

  /**
   * One pressure-velocity coupling and the essential vector of velocity
   * unknown v made from it: the matrix without the pressure boundary rows
   * and the velocity boundary columns, the vector without the pressure
   * boundary entries.
   */
  method ReducedCoupling(pFem: FEM2D, uFem: FEM2D, local: (int, int, int) -> real, v: nat, ghost A: Mat, ghost U: seq<real>)
    returns (P: Matrix, e: Vector)
    requires pFem.Valid() && uFem.Valid() && pFem.mesh == uFem.mesh && v < uFem.N
    requires A == MassPair(uFem.mesh, pFem.polynomialOrder, uFem.polynomialOrder, local)
    requires forall j :: 0 <= j < uFem.Ng ==> v < |uFem.FENodes[j].vars|
    requires U == Unknowns(uFem.FENodes[..], v)
    ensures fresh(P) && fresh(e)
    ensures CouplingReduced(P, e, A, uFem.boundaryIndices, pFem.boundaryIndices, uFem.Ng, pFem.Ng, U)
  {
    SpaceFacts(uFem);
    SpaceFacts(pFem);
    uFem.BoundaryIndicesAreConstrained();
    pFem.BoundaryIndicesAreConstrained();
    P := MassMatrixPair(pFem, uFem, local);
    e := EssentialBoundaryVectorPair(pFem, uFem, v, P);
    ReducePair(P, e, pFem.boundaryIndices, uFem.boundaryIndices);
  }

  /** The two removals of one coupling and its essential vector. */
  method ReducePair(P: Matrix, e: Vector, Bp: seq<int>, Bu: seq<int>)
    requires P.Valid() && e.Valid() && P.n == e.n
    requires StrictlyIncreasing(Bp) && IndicesBelow(Bp, P.n) && StrictlyIncreasing(Bu) && IndicesBelow(Bu, P.m)
    modifies P, e
    ensures P.Valid() && e.Valid() && P.n == e.n == old(P.n) - |Bp| && P.m == old(P.m) - |Bu|
    ensures P.Contents() == RemoveRowsAndColumns(old(P.Contents()), Bp, Bu, old(P.m))
    ensures e.Contents() == RemoveIndices(old(e.Contents()), Bp)
  {
    RemoveBoundaryRowsAndColumns(P, Bp, Bu);
    RemoveBoundaryIndices(e, Bp);
  }

  /** A load vector of a space without its boundary entries. */
  method ReducedLoad(fem: FEM2D, local: (int, int) -> real, ghost b: seq<real>) returns (f: Vector)
    requires fem.Valid() && b == Load2D(fem.mesh, fem.polynomialOrder, local)
    ensures fresh(f) && LoadReduced(f, b, fem.boundaryIndices, fem.Ng)
  {
    SpaceFacts(fem);
    fem.BoundaryIndicesAreConstrained();
    f := LoadVector2D(fem, local);
    RemoveBoundaryIndices(f, fem.boundaryIndices);
  }

  /** The reduced pieces of the velocity space: both viscous matrices with their essential vectors, and both force loads. */
  method VelocityPieces(uFem: FEM2D, t: StokesTerms, ghost a: Assembled, ghost U1: seq<real>, ghost U2: seq<real>)
    returns (Mxx: Matrix, e1xx: Vector, e2xx: Vector, Myy: Matrix, e1yy: Vector, e2yy: Vector, f1: Vector, f2: Vector)
    requires uFem.Valid() && uFem.N == 2
    requires a.Mxx == MassPair(uFem.mesh, uFem.polynomialOrder, uFem.polynomialOrder, t.viscousX)
    requires a.Myy == MassPair(uFem.mesh, uFem.polynomialOrder, uFem.polynomialOrder, t.viscousY)
    requires a.f1 == Load2D(uFem.mesh, uFem.polynomialOrder, t.force1) && a.f2 == Load2D(uFem.mesh, uFem.polynomialOrder, t.force2)
    requires forall j :: 0 <= j < uFem.Ng ==> |uFem.FENodes[j].vars| == 2
    requires U1 == Unknowns(uFem.FENodes[..], 0) && U2 == Unknowns(uFem.FENodes[..], 1)
    ensures fresh(Mxx) && fresh(e1xx) && fresh(e2xx) && fresh(Myy) && fresh(e1yy) && fresh(e2yy) && fresh(f1) && fresh(f2)
    ensures ViscousReduced(Mxx, e1xx, e2xx, a.Mxx, uFem.boundaryIndices, uFem.Ng, U1, U2)
    ensures ViscousReduced(Myy, e1yy, e2yy, a.Myy, uFem.boundaryIndices, uFem.Ng, U1, U2)
    ensures LoadReduced(f1, a.f1, uFem.boundaryIndices, uFem.Ng) && LoadReduced(f2, a.f2, uFem.boundaryIndices, uFem.Ng)
  {
    Mxx, e1xx, e2xx := ReducedViscous(uFem, t.viscousX, a.Mxx, U1, U2);
    Myy, e1yy, e2yy := ReducedViscous(uFem, t.viscousY, a.Myy, U1, U2);
    f1 := ReducedLoad(uFem, t.force1, a.f1);
    f2 := ReducedLoad(uFem, t.force2, a.f2);
  }

  /** Both reduced couplings with the essential vectors of u1 and u2 made from them. */
  method Couplings(pFem: FEM2D, uFem: FEM2D, t: StokesTerms, ghost a: Assembled, ghost U1: seq<real>, ghost U2: seq<real>)
    returns (Px: Matrix, e1p: Vector, Py: Matrix, e2p: Vector)
    requires pFem.Valid() && uFem.Valid() && pFem.mesh == uFem.mesh && uFem.N == 2
    requires a.Px == MassPair(uFem.mesh, pFem.polynomialOrder, uFem.polynomialOrder, t.pressureX)
    requires a.Py == MassPair(uFem.mesh, pFem.polynomialOrder, uFem.polynomialOrder, t.pressureY)
    requires forall j :: 0 <= j < uFem.Ng ==> |uFem.FENodes[j].vars| == 2
    requires U1 == Unknowns(uFem.FENodes[..], 0) && U2 == Unknowns(uFem.FENodes[..], 1)
    ensures fresh(Px) && fresh(e1p) && fresh(Py) && fresh(e2p)
    ensures CouplingReduced(Px, e1p, a.Px, uFem.boundaryIndices, pFem.boundaryIndices, uFem.Ng, pFem.Ng, U1)
    ensures CouplingReduced(Py, e2p, a.Py, uFem.boundaryIndices, pFem.boundaryIndices, uFem.Ng, pFem.Ng, U2)
  {
    Px, e1p := ReducedCoupling(pFem, uFem, t.pressureX, 0, a.Px, U1);
    Py, e2p := ReducedCoupling(pFem, uFem, t.pressureY, 1, a.Py, U2);
  }

  /** The reduced pieces of the pressure space: both couplings with their essential vectors, and the mean-value row. */
  method PressurePieces(pFem: FEM2D, uFem: FEM2D, t: StokesTerms, ghost a: Assembled, ghost U1: seq<real>, ghost U2: seq<real>)
    returns (Px: Matrix, e1p: Vector, Py: Matrix, e2p: Vector, fl: Vector)
    requires pFem.Valid() && uFem.Valid() && pFem.mesh == uFem.mesh && uFem.N == 2
    requires a.Px == MassPair(uFem.mesh, pFem.polynomialOrder, uFem.polynomialOrder, t.pressureX)
    requires a.Py == MassPair(uFem.mesh, pFem.polynomialOrder, uFem.polynomialOrder, t.pressureY)
    requires a.fl == Load2D(pFem.mesh, pFem.polynomialOrder, t.mean)
    requires forall j :: 0 <= j < uFem.Ng ==> |uFem.FENodes[j].vars| == 2
    requires U1 == Unknowns(uFem.FENodes[..], 0) && U2 == Unknowns(uFem.FENodes[..], 1)
    ensures fresh(Px) && fresh(e1p) && fresh(Py) && fresh(e2p) && fresh(fl)
    ensures CouplingReduced(Px, e1p, a.Px, uFem.boundaryIndices, pFem.boundaryIndices, uFem.Ng, pFem.Ng, U1)
    ensures CouplingReduced(Py, e2p, a.Py, uFem.boundaryIndices, pFem.boundaryIndices, uFem.Ng, pFem.Ng, U2)
    ensures LoadReduced(fl, a.fl, pFem.boundaryIndices, pFem.Ng)
  {
    Px, e1p, Py, e2p := Couplings(pFem, uFem, t, a, U1, U2);
    fl := ReducedLoad(pFem, t.mean, a.fl);
  }

  /**
   * The saddle-point matrix and right-hand side assembled from reduced
   * pieces that match the pieces a and the velocity unknowns U1, U2: the
   * loops of `solveSystem` give `SaddleOperator` and `SaddleRHS`.
   */
  method AssembleSaddle(Mxx: Matrix, e1xx: Vector, e2xx: Vector, Myy: Matrix, e1yy: Vector, e2yy: Vector,
                        Px: Matrix, e1p: Vector, Py: Matrix, e2p: Vector, fl: Vector, f1: Vector, f2: Vector,
                        ghost a: Assembled, Bu: seq<int>, Bp: seq<int>, Ngu: nat, Ngp: nat, ghost U1: seq<real>, ghost U2: seq<real>)
    returns (S: Matrix, r: Vector)
    requires ViscousReduced(Mxx, e1xx, e2xx, a.Mxx, Bu, Ngu, U1, U2) && ViscousReduced(Myy, e1yy, e2yy, a.Myy, Bu, Ngu, U1, U2)
    requires CouplingReduced(Px, e1p, a.Px, Bu, Bp, Ngu, Ngp, U1) && CouplingReduced(Py, e2p, a.Py, Bu, Bp, Ngu, Ngp, U2)
    requires LoadReduced(fl, a.fl, Bp, Ngp) && LoadReduced(f1, a.f1, Bu, Ngu) && LoadReduced(f2, a.f2, Bu, Ngu)
    ensures Shaped(a, Ngu, Ngp) && Lists(Bu, Bp, Ngu, Ngp)
    ensures fresh(S) && fresh(S.entries) && S.Valid() && S.n == S.m == 2 * (Ngu - |Bu|) + (Ngp - |Bp|) + 1
    ensures fresh(r) && r.Valid()
    ensures S.Contents() == SaddleOperator(a, Bu, Bp, Ngu, Ngp) && r.Contents() == SaddleRHS(a, Bu, Bp, Ngu, Ngp, U1, U2)
  {
    S := AssembleStokesMatrix(Mxx, Myy, Px, Py, fl);
    r := AssembleStokesLoad(f1, e1xx, e1yy, f2, e2xx, e2yy, e1p, e2p);
  }

  /** The pressure pieces, then the saddle-point matrix and right-hand side from them and the velocity pieces. */
  method CompleteSaddle(pFem: FEM2D, uFem: FEM2D, t: StokesTerms, ghost a: Assembled, ghost U1: seq<real>, ghost U2: seq<real>,
                        Mxx: Matrix, e1xx: Vector, e2xx: Vector, Myy: Matrix, e1yy: Vector, e2yy: Vector, f1: Vector, f2: Vector)
    returns (S: Matrix, r: Vector)
    requires pFem.Valid() && uFem.Valid() && pFem.mesh == uFem.mesh && uFem.N == 2
    requires a.Px == MassPair(uFem.mesh, pFem.polynomialOrder, uFem.polynomialOrder, t.pressureX)
    requires a.Py == MassPair(uFem.mesh, pFem.polynomialOrder, uFem.polynomialOrder, t.pressureY)
    requires a.fl == Load2D(pFem.mesh, pFem.polynomialOrder, t.mean)
    requires forall j :: 0 <= j < uFem.Ng ==> |uFem.FENodes[j].vars| == 2
    requires U1 == Unknowns(uFem.FENodes[..], 0) && U2 == Unknowns(uFem.FENodes[..], 1)
    requires ViscousReduced(Mxx, e1xx, e2xx, a.Mxx, uFem.boundaryIndices, uFem.Ng, U1, U2)
    requires ViscousReduced(Myy, e1yy, e2yy, a.Myy, uFem.boundaryIndices, uFem.Ng, U1, U2)
    requires LoadReduced(f1, a.f1, uFem.boundaryIndices, uFem.Ng) && LoadReduced(f2, a.f2, uFem.boundaryIndices, uFem.Ng)
    ensures Shaped(a, uFem.Ng, pFem.Ng) && Lists(uFem.boundaryIndices, pFem.boundaryIndices, uFem.Ng, pFem.Ng)
    ensures fresh(S) && fresh(S.entries) && S.Valid() && fresh(r) && r.Valid()
    ensures S.n == S.m == 2 * (uFem.Ng - |uFem.boundaryIndices|) + (pFem.Ng - |pFem.boundaryIndices|) + 1
    ensures S.Contents() == SaddleOperator(a, uFem.boundaryIndices, pFem.boundaryIndices, uFem.Ng, pFem.Ng)
    ensures r.Contents() == SaddleRHS(a, uFem.boundaryIndices, pFem.boundaryIndices, uFem.Ng, pFem.Ng, U1, U2)
  {
    var Px, e1p, Py, e2p, fl := PressurePieces(pFem, uFem, t, a, U1, U2);
    S, r := AssembleSaddle(Mxx, e1xx, e2xx, Myy, e1yy, e2yy, Px, e1p, Py, e2p, fl, f1, f2,
                           a, uFem.boundaryIndices, pFem.boundaryIndices, uFem.Ng, pFem.Ng, U1, U2);
  }

  /** The solve of a saddle-point system that matches the pieces a, with the zeros reinserted. */
  method SolveSaddle(S: Matrix, r: Vector, ghost a: Assembled, Bu: seq<int>, Bp: seq<int>, Ngu: nat, Ngp: nat,
                     ghost U1: seq<real>, ghost U2: seq<real>) returns (x: Vector)
    requires Shaped(a, Ngu, Ngp) && Lists(Bu, Bp, Ngu, Ngp) && |U1| == Ngu && |U2| == Ngu
    requires S.Valid() && r.Valid() && S.Contents() == SaddleOperator(a, Bu, Bp, Ngu, Ngp) && r.Contents() == SaddleRHS(a, Bu, Bp, Ngu, Ngp, U1, U2)
    requires S.n == S.m == 2 * (Ngu - |Bu|) + (Ngp - |Bp|) + 1
    requires NonzeroPivots(SaddleOperator(a, Bu, Bp, Ngu, Ngp))
    modifies S.entries
    ensures fresh(x) && x.Valid() && x.n == 2 * Ngu + Ngp + 1
    ensures x.Contents() == SaddleSolution(a, Bu, Bp, Ngu, Ngp, U1, U2)
  {
    ListsCounts(Bu, Bp, Ngu, Ngp);
    x := SolveAndReinsertBlocks(S, r, Bu, Bp, Ngu, Ngp);
  }

  /**
   * The reduced saddle-point system of `solveSystem` for the pieces a of
   * the two spaces and the current velocity unknowns U1, U2.
   */
  method SaddleSystem(uFem: FEM2D, pFem: FEM2D, t: StokesTerms, ghost a: Assembled, ghost U1: seq<real>, ghost U2: seq<real>)
    returns (S: Matrix, r: Vector)
    requires uFem.Valid() && pFem.Valid() && pFem.mesh == uFem.mesh && uFem.N == 2
    requires a == AssembledOf(uFem.mesh, uFem.polynomialOrder, pFem.polynomialOrder, t)
    requires forall j :: 0 <= j < uFem.Ng ==> |uFem.FENodes[j].vars| == 2
    requires U1 == Unknowns(uFem.FENodes[..], 0) && U2 == Unknowns(uFem.FENodes[..], 1)
    ensures Shaped(a, uFem.Ng, pFem.Ng) && Lists(uFem.boundaryIndices, pFem.boundaryIndices, uFem.Ng, pFem.Ng)
    ensures fresh(S) && fresh(S.entries) && S.Valid() && fresh(r) && r.Valid()
    ensures S.n == S.m == 2 * (uFem.Ng - |uFem.boundaryIndices|) + (pFem.Ng - |pFem.boundaryIndices|) + 1
    ensures S.Contents() == SaddleOperator(a, uFem.boundaryIndices, pFem.boundaryIndices, uFem.Ng, pFem.Ng)
    ensures r.Contents() == SaddleRHS(a, uFem.boundaryIndices, pFem.boundaryIndices, uFem.Ng, pFem.Ng, U1, U2)
  {
    var Mxx, e1xx, e2xx, Myy, e1yy, e2yy, f1, f2 := VelocityPieces(uFem, t, a, U1, U2);
    S, r := CompleteSaddle(pFem, uFem, t, a, U1, U2, Mxx, e1xx, e2xx, Myy, e1yy, e2yy, f1, f2);
  }

  /** `solveSystem`: the saddle-point system solved, with a zero reinserted at every boundary DOF of each block. */
  method SolveSaddleSystem(uFem: FEM2D, pFem: FEM2D, t: StokesTerms, ghost a: Assembled, ghost U1: seq<real>, ghost U2: seq<real>)
    returns (x: Vector)
    requires uFem.Valid() && pFem.Valid() && pFem.mesh == uFem.mesh && uFem.N == 2
    requires a == AssembledOf(uFem.mesh, uFem.polynomialOrder, pFem.polynomialOrder, t)
    requires forall j :: 0 <= j < uFem.Ng ==> |uFem.FENodes[j].vars| == 2
    requires U1 == Unknowns(uFem.FENodes[..], 0) && U2 == Unknowns(uFem.FENodes[..], 1)
    requires Lists(uFem.boundaryIndices, pFem.boundaryIndices, uFem.Ng, pFem.Ng)
    requires NonzeroPivots(SaddleOperator(a, uFem.boundaryIndices, pFem.boundaryIndices, uFem.Ng, pFem.Ng))
    ensures fresh(x) && x.Valid() && x.n == 2 * uFem.Ng + pFem.Ng + 1
    ensures x.Contents() == SaddleSolution(a, uFem.boundaryIndices, pFem.boundaryIndices, uFem.Ng, pFem.Ng, U1, U2)
  {
    var S, r := SaddleSystem(uFem, pFem, t, a, U1, U2);
    x := SolveSaddle(S, r, a, uFem.boundaryIndices, pFem.boundaryIndices, uFem.Ng, pFem.Ng, U1, U2);
  }

  /** The velocity loop of `update`: u1 and u2 of node i become u[i] and u[Ng + i]. */
  method WriteVelocity(fem: FEM2D, u: Vector)
    requires fem.Valid() && fem.N == 2 && u.Valid() && u.n >= 2 * fem.Ng
    modifies fem.FENodes
    ensures fem.Valid()
    ensures forall i :: 0 <= i < fem.Ng ==> |old(fem.FENodes[i]).vars| == 2
    ensures fem.FENodes[..] == WithUnknown(WithUnknown(old(fem.FENodes[..]), 0, u.Contents()[..fem.Ng]), 1, u.Contents()[fem.Ng..2 * fem.Ng])
  {
    SpaceFacts(fem);
    ghost var before := fem.FENodes[..];
    ghost var target := WithUnknown(WithUnknown(before, 0, u.Contents()[..fem.Ng]), 1, u.Contents()[fem.Ng..2 * fem.Ng]);
    for i := 0 to fem.Ng
      invariant fem.Valid()
      invariant forall j :: 0 <= j < fem.Ng ==> fem.FENodes[j] == if j < i then target[j] else before[j]
    {
      var a := u.Get(i);
      var b := u.Get(fem.Ng + i);
      assert target[i] == before[i].(vars := before[i].vars[0 := a][1 := b]);
      SetVelocity(fem, i, a, b);
    }
    assert fem.FENodes[..] == target;
  }

  /** One pass of the velocity loop: u1 and u2 of node i become a and b, and no other node changes. */
  method SetVelocity(fem: FEM2D, i: int, a: real, b: real)
    requires fem.Valid() && fem.N == 2 && 0 <= i < fem.Ng
    modifies fem.FENodes
    ensures fem.Valid()
    ensures fem.FENodes[..] == old(fem.FENodes[..])[i := old(fem.FENodes[i]).(vars := old(fem.FENodes[i]).vars[0 := a][1 := b])]
  {
    fem.SetNodeVariable(i, 0, a);
    fem.SetNodeVariable(i, 1, b);
  }

  /** The pressure loop of `update`: p of node i becomes u[lo + i]. */
  method WritePressure(fem: FEM2D, u: Vector, lo: nat)
    requires fem.Valid() && fem.N == 1 && u.Valid() && u.n >= lo + fem.Ng
    modifies fem.FENodes
    ensures fem.Valid()
    ensures forall i :: 0 <= i < fem.Ng ==> |old(fem.FENodes[i]).vars| == 1
    ensures fem.FENodes[..] == WithUnknown(old(fem.FENodes[..]), 0, u.Contents()[lo..lo + fem.Ng])
  {
    SpaceFacts(fem);
    ghost var before := fem.FENodes[..];
    ghost var target := WithUnknown(before, 0, u.Contents()[lo..lo + fem.Ng]);
    for i := 0 to fem.Ng
      invariant fem.Valid()
      invariant forall j :: 0 <= j < fem.Ng ==> fem.FENodes[j] == if j < i then target[j] else before[j]
    {
      var c := u.Get(lo + i);
      fem.SetNodeVariable(i, 0, c);
    }
    assert fem.FENodes[..] == target;
  }

  /** Both loops of `update`: the velocity and pressure blocks of u go back into the two spaces. */
  method WriteSolution(uFem: FEM2D, pFem: FEM2D, u: Vector, ghost s: seq<real>)
    requires uFem.Valid() && pFem.Valid() && uFem.N == 2 && pFem.N == 1 && uFem.FENodes != pFem.FENodes
    requires u.Valid() && u.n == 2 * uFem.Ng + pFem.Ng + 1 && u.Contents() == s
    modifies uFem.FENodes, pFem.FENodes
    ensures uFem.Valid() && pFem.Valid()
    ensures SolutionWritten(old(uFem.FENodes[..]), old(pFem.FENodes[..]), uFem.FENodes[..], pFem.FENodes[..], s, uFem.Ng, pFem.Ng)
  {
    WriteVelocity(uFem, u);
    WritePressure(pFem, u, 2 * uFem.Ng);
  }

  // ---------------------------------------------------------------------
  // The problem object

  /** `StokesFluid`: velocity on a space with two unknowns per node, pressure on a space with one, over one mesh. */
  class StokesProblem2D {
    const uFem: FEM2D
    const pFem: FEM2D
    const terms: StokesTerms
    /** `neq`: the number of equations, u1, u2 and p. */
    const equations: int

    ghost predicate Valid()
      reads this, uFem, uFem.FENodes, uFem.connectivityMatrix, pFem, pFem.FENodes, pFem.connectivityMatrix
    {
      && uFem.Valid() && pFem.Valid() && uFem.N == 2 && pFem.N == 1 && equations == 3
      && pFem.mesh == uFem.mesh && uFem.FENodes != pFem.FENodes
      && Lists(uFem.boundaryIndices, pFem.boundaryIndices, uFem.Ng, pFem.Ng)
    }

    constructor (uFEM: FEM2D, pFEM: FEM2D, t: StokesTerms)
      requires uFEM.Valid() && pFEM.Valid() && uFEM.N == 2 && pFEM.N == 1
      requires pFEM.mesh == uFEM.mesh && uFEM.FENodes != pFEM.FENodes
      ensures Valid() && uFem == uFEM && pFem == pFEM && terms == t && equations == 3
    {
      uFem := uFEM;
      pFem := pFEM;
      terms := t;
      equations := 3;
      new;
      SpaceFacts(uFEM);
      SpaceFacts(pFEM);
      uFEM.BoundaryIndicesAreConstrained();
      pFEM.BoundaryIndicesAreConstrained();
    }

    /** The assembled, unreduced pieces of this problem. */
    ghost function Pieces(): (a: Assembled)
      reads this, uFem, uFem.FENodes, uFem.connectivityMatrix, pFem, pFem.FENodes, pFem.connectivityMatrix
      requires Valid()
      ensures Shaped(a, uFem.Ng, pFem.Ng)
    {
      AssembledOf(uFem.mesh, uFem.polynomialOrder, pFem.polynomialOrder, terms)
    }

    /** The saddle-point matrix this problem solves. */
    ghost function Operator(): (S: Mat)
      reads this, uFem, uFem.FENodes, uFem.connectivityMatrix, pFem, pFem.FENodes, pFem.connectivityMatrix
      requires Valid()
      ensures IsSquare(S) && |S| + 2 * |uFem.boundaryIndices| + |pFem.boundaryIndices| == 2 * uFem.Ng + pFem.Ng + 1
    {
      SaddleOperator(Pieces(), uFem.boundaryIndices, pFem.boundaryIndices, uFem.Ng, pFem.Ng)
    }

    /** The right-hand side this problem solves, from the current velocity unknowns. */
    ghost function RHS(): seq<real>
      reads this, uFem, uFem.FENodes, uFem.connectivityMatrix, pFem, pFem.FENodes, pFem.connectivityMatrix
      requires Valid()
    {
      SpaceFacts(uFem);
      SaddleRHS(Pieces(), uFem.boundaryIndices, pFem.boundaryIndices, uFem.Ng, pFem.Ng,
                Unknowns(uFem.FENodes[..], 0), Unknowns(uFem.FENodes[..], 1))
    }

    /** What `solveSystem` returns. */
    ghost function Solution(): (u: seq<real>)
      reads this, uFem, uFem.FENodes, uFem.connectivityMatrix, pFem, pFem.FENodes, pFem.connectivityMatrix
      requires Valid() && NonzeroPivots(Operator())
      ensures |u| == 2 * uFem.Ng + pFem.Ng + 1
    {
      SpaceFacts(uFem);
      SaddleSolution(Pieces(), uFem.boundaryIndices, pFem.boundaryIndices, uFem.Ng, pFem.Ng,
                     Unknowns(uFem.FENodes[..], 0), Unknowns(uFem.FENodes[..], 1))
    }

    /** `solveSystem`: the solution of the saddle-point system with a zero reinserted at every boundary DOF of each block. */
    method SolveSystem() returns (coefficients: Vector)
      requires Valid() && NonzeroPivots(Operator())
      ensures fresh(coefficients) && coefficients.Valid() && coefficients.n == 2 * uFem.Ng + pFem.Ng + 1
      ensures coefficients.Contents() == Solution()
    {
      SpaceFacts(uFem);
      coefficients := SolveSaddleSystem(uFem, pFem, terms, Pieces(), Unknowns(uFem.FENodes[..], 0), Unknowns(uFem.FENodes[..], 1));
    }

    /**
     * `update`: u1 and u2 of every velocity node and p of every pressure
     * node become their blocks of the solution; the Lagrange multiplier
     * is discarded.
     */
    method Update()
      requires Valid() && NonzeroPivots(Operator())
      modifies uFem.FENodes, pFem.FENodes
      ensures Valid()
      ensures SolutionWritten(old(uFem.FENodes[..]), old(pFem.FENodes[..]), uFem.FENodes[..], pFem.FENodes[..],
                              old(Solution()), uFem.Ng, pFem.Ng)
    {
      ghost var solution := Solution();
      var u := SolveSystem();
      WriteSolution(uFem, pFem, u, solution);
    }
  }
}
