/**
 * The solve step of the first two-dimensional elliptic solver
 * (Elliptic2DABCF.cpp): the five assembled matrices and the six right-hand
 * side vectors lose the rows, columns and entries of the constrained degrees
 * of freedom in one descending walk over the boundary-index list, the reduced
 * matrices and vectors are summed and solved, and a zero is put back at every
 * boundary index in an ascending walk.
 */
module LegacyElliptic {
  import opened Vectors
  import opened Matrices
  import opened Elimination

  /** No two entries of the list are the same object. */
  predicate Distinct<T(==)>(objs: seq<T>)
  {
    forall i, j :: 0 <= i < j < |objs| ==> objs[i] != objs[j]
  }

  /** `M_xx + M_yy + M_0x + M_0y + M_00`, summed left to right. */
  function SystemMatrix(Mxx: Mat, Myy: Mat, M0x: Mat, M0y: Mat, M00: Mat, n: nat): (S: Mat)
    requires IsShape(Mxx, n, n) && IsShape(Myy, n, n) && IsShape(M0x, n, n)
    requires IsShape(M0y, n, n) && IsShape(M00, n, n)
    ensures IsShape(S, n, n)
    ensures forall i, j :: 0 <= i < n && 0 <= j < n ==>
      S[i][j] == Mxx[i][j] + Myy[i][j] + M0x[i][j] + M0y[i][j] + M00[i][j]
  {
    AddMat(AddMat(AddMat(AddMat(Mxx, Myy, n, n), M0x, n, n), M0y, n, n), M00, n, n)
  }

  /** `f_h + bc_xx + bc_yy + bc_0x + bc_0y + bc_00`, summed left to right. */
  function SystemLoad(f: seq<real>, b1: seq<real>, b2: seq<real>, b3: seq<real>, b4: seq<real>, b5: seq<real>): (r: seq<real>)
    requires |b1| == |f| && |b2| == |f| && |b3| == |f| && |b4| == |f| && |b5| == |f|
    ensures |r| == |f|
    ensures forall i :: 0 <= i < |f| ==> r[i] == f[i] + b1[i] + b2[i] + b3[i] + b4[i] + b5[i]
  {
    Add(Add(Add(Add(Add(f, b1), b2), b3), b4), b5)
  }

  /** The system matrix after removing the boundary rows and columns from each of the five matrices. */
  function ReducedMatrix(Mxx: Mat, Myy: Mat, M0x: Mat, M0y: Mat, M00: Mat, B: seq<int>): (S: Mat)
    requires IsSquare(Mxx) && IsShape(Myy, |Mxx|, |Mxx|) && IsShape(M0x, |Mxx|, |Mxx|)
    requires IsShape(M0y, |Mxx|, |Mxx|) && IsShape(M00, |Mxx|, |Mxx|)
    requires StrictlyIncreasing(B) && IndicesBelow(B, |Mxx|)
    ensures IsSquare(S) && |S| == |Mxx| - |B|
  {
    SystemMatrix(RemoveRowsCols(Mxx, B), RemoveRowsCols(Myy, B), RemoveRowsCols(M0x, B),
                 RemoveRowsCols(M0y, B), RemoveRowsCols(M00, B), |Mxx| - |B|)
  }

  /** The right-hand side after removing the boundary entries from each of the six vectors. */
  function ReducedLoad(f: seq<real>, b1: seq<real>, b2: seq<real>, b3: seq<real>, b4: seq<real>, b5: seq<real>,
                       B: seq<int>): (r: seq<real>)
    requires |b1| == |f| && |b2| == |f| && |b3| == |f| && |b4| == |f| && |b5| == |f|
    requires StrictlyIncreasing(B) && IndicesBelow(B, |f|)
    ensures |r| == |f| - |B|
  {
    SystemLoad(RemoveIndices(f, B), RemoveIndices(b1, B), RemoveIndices(b2, B),
               RemoveIndices(b3, B), RemoveIndices(b4, B), RemoveIndices(b5, B))
  }

  /** One step of the descending walk on the five matrices: row and column `i` leave each. */
  method RemoveIndexFromMatrices(Mxx: Matrix, Myy: Matrix, M0x: Matrix, M0y: Matrix, M00: Matrix, i: nat)
    requires Distinct([Mxx, Myy, M0x, M0y, M00])
    requires Mxx.Valid() && Myy.Valid() && M0x.Valid() && M0y.Valid() && M00.Valid()
    requires Mxx.n == Mxx.m && Myy.n == Mxx.n && Myy.m == Mxx.n && M0x.n == Mxx.n && M0x.m == Mxx.n
    requires M0y.n == Mxx.n && M0y.m == Mxx.n && M00.n == Mxx.n && M00.m == Mxx.n
    requires i < Mxx.n
    modifies Mxx, Myy, M0x, M0y, M00
    ensures Mxx.Valid() && Myy.Valid() && M0x.Valid() && M0y.Valid() && M00.Valid()
    ensures Mxx.n == Mxx.m == old(Mxx.n) - 1 && Myy.n == Mxx.n && Myy.m == Mxx.n && M0x.n == Mxx.n && M0x.m == Mxx.n
    ensures M0y.n == Mxx.n && M0y.m == Mxx.n && M00.n == Mxx.n && M00.m == Mxx.n
    ensures Mxx.Contents() == RemoveRowCol(old(Mxx.Contents()), i) && Myy.Contents() == RemoveRowCol(old(Myy.Contents()), i)
    ensures M0x.Contents() == RemoveRowCol(old(M0x.Contents()), i) && M0y.Contents() == RemoveRowCol(old(M0y.Contents()), i)
    ensures M00.Contents() == RemoveRowCol(old(M00.Contents()), i)
  {
    ghost var ms := [Mxx, Myy, M0x, M0y, M00];
    assert ms[0] != ms[1] && ms[0] != ms[2] && ms[0] != ms[3] && ms[0] != ms[4];
    assert ms[1] != ms[2] && ms[1] != ms[3] && ms[1] != ms[4] && ms[2] != ms[3] && ms[2] != ms[4] && ms[3] != ms[4];
    Mxx.RemoveRowAndCol(i);
    Myy.RemoveRowAndCol(i);
    M0x.RemoveRowAndCol(i);
    M0y.RemoveRowAndCol(i);
    M00.RemoveRowAndCol(i);
  }

  /** One step of the descending walk on the six vectors: entry `i` leaves each. */
  method RemoveIndexFromVectors(fh: Vector, bxx: Vector, byy: Vector, b0x: Vector, b0y: Vector, b00: Vector, i: nat)
    requires Distinct([fh, bxx, byy, b0x, b0y, b00])
    requires fh.Valid() && bxx.Valid() && byy.Valid() && b0x.Valid() && b0y.Valid() && b00.Valid()
    requires bxx.n == fh.n && byy.n == fh.n && b0x.n == fh.n && b0y.n == fh.n && b00.n == fh.n
    requires i < fh.n
    modifies fh, bxx, byy, b0x, b0y, b00
    ensures fh.Valid() && bxx.Valid() && byy.Valid() && b0x.Valid() && b0y.Valid() && b00.Valid()
    ensures fh.n == old(fh.n) - 1
    ensures bxx.n == fh.n && byy.n == fh.n && b0x.n == fh.n && b0y.n == fh.n && b00.n == fh.n
    ensures fh.Contents() == RemoveAt(old(fh.Contents()), i) && bxx.Contents() == RemoveAt(old(bxx.Contents()), i)
    ensures byy.Contents() == RemoveAt(old(byy.Contents()), i) && b0x.Contents() == RemoveAt(old(b0x.Contents()), i)
    ensures b0y.Contents() == RemoveAt(old(b0y.Contents()), i) && b00.Contents() == RemoveAt(old(b00.Contents()), i)
  {
    ghost var vs := [fh, bxx, byy, b0x, b0y, b00];
    assert vs[0] != vs[1] && vs[0] != vs[2] && vs[0] != vs[3] && vs[0] != vs[4] && vs[0] != vs[5];
    assert vs[1] != vs[2] && vs[1] != vs[3] && vs[1] != vs[4] && vs[1] != vs[5];
    assert vs[2] != vs[3] && vs[2] != vs[4] && vs[2] != vs[5] && vs[3] != vs[4] && vs[3] != vs[5] && vs[4] != vs[5];
    fh.Remove(i);
    bxx.Remove(i);
    byy.Remove(i);
    b0x.Remove(i);
    b0y.Remove(i);
    b00.Remove(i);
  }

  /** The descending walk of `solveSystem` on the five matrices: row and column B[n] leave each, for n from |B| - 1 down to 0. */
  method RemoveBoundaryFromMatrices(Mxx: Matrix, Myy: Matrix, M0x: Matrix, M0y: Matrix, M00: Matrix, B: seq<int>)
    requires Distinct([Mxx, Myy, M0x, M0y, M00])
    requires Mxx.Valid() && Myy.Valid() && M0x.Valid() && M0y.Valid() && M00.Valid()
    requires Mxx.n == Mxx.m && Myy.n == Mxx.n && Myy.m == Mxx.n && M0x.n == Mxx.n && M0x.m == Mxx.n
    requires M0y.n == Mxx.n && M0y.m == Mxx.n && M00.n == Mxx.n && M00.m == Mxx.n
    requires StrictlyIncreasing(B) && IndicesBelow(B, Mxx.n)
    modifies Mxx, Myy, M0x, M0y, M00
    ensures Mxx.Valid() && Myy.Valid() && M0x.Valid() && M0y.Valid() && M00.Valid()
    ensures Mxx.n == Mxx.m == old(Mxx.n) - |B| && Myy.n == Mxx.n && Myy.m == Mxx.n && M0x.n == Mxx.n && M0x.m == Mxx.n
    ensures M0y.n == Mxx.n && M0y.m == Mxx.n && M00.n == Mxx.n && M00.m == Mxx.n
    ensures Mxx.Contents() == RemoveRowsCols(old(Mxx.Contents()), B) && Myy.Contents() == RemoveRowsCols(old(Myy.Contents()), B)
    ensures M0x.Contents() == RemoveRowsCols(old(M0x.Contents()), B) && M0y.Contents() == RemoveRowsCols(old(M0y.Contents()), B)
    ensures M00.Contents() == RemoveRowsCols(old(M00.Contents()), B)
  {
    ghost var A1, A2, A3, A4, A5 := Mxx.Contents(), Myy.Contents(), M0x.Contents(), M0y.Contents(), M00.Contents();
    var n := |B|;
    while n > 0
      invariant 0 <= n <= |B|
      invariant Mxx.Valid() && Myy.Valid() && M0x.Valid() && M0y.Valid() && M00.Valid()
      invariant Mxx.n == Mxx.m == |A1| - (|B| - n) && Myy.n == Mxx.n && Myy.m == Mxx.n && M0x.n == Mxx.n && M0x.m == Mxx.n
      invariant M0y.n == Mxx.n && M0y.m == Mxx.n && M00.n == Mxx.n && M00.m == Mxx.n
      invariant Mxx.Contents() == RemoveRowsCols(A1, B[n..]) && Myy.Contents() == RemoveRowsCols(A2, B[n..])
      invariant M0x.Contents() == RemoveRowsCols(A3, B[n..]) && M0y.Contents() == RemoveRowsCols(A4, B[n..])
      invariant M00.Contents() == RemoveRowsCols(A5, B[n..])
    {
      n := n - 1;
      RemoveRowsColsStep(A1, B, n);
      RemoveRowsColsStep(A2, B, n);
      RemoveRowsColsStep(A3, B, n);
      RemoveRowsColsStep(A4, B, n);
      RemoveRowsColsStep(A5, B, n);
      RemoveIndexFromMatrices(Mxx, Myy, M0x, M0y, M00, B[n]);
    }
    assert B[0..] == B;
  }

  /** The descending walk of `solveSystem` on the six vectors: entry B[n] leaves each, for n from |B| - 1 down to 0. */
  method RemoveBoundaryFromVectors(fh: Vector, bxx: Vector, byy: Vector, b0x: Vector, b0y: Vector, b00: Vector, B: seq<int>)
    requires Distinct([fh, bxx, byy, b0x, b0y, b00])
    requires fh.Valid() && bxx.Valid() && byy.Valid() && b0x.Valid() && b0y.Valid() && b00.Valid()
    requires bxx.n == fh.n && byy.n == fh.n && b0x.n == fh.n && b0y.n == fh.n && b00.n == fh.n
    requires StrictlyIncreasing(B) && IndicesBelow(B, fh.n)
    modifies fh, bxx, byy, b0x, b0y, b00
    ensures fh.Valid() && bxx.Valid() && byy.Valid() && b0x.Valid() && b0y.Valid() && b00.Valid()
    ensures fh.n == old(fh.n) - |B|
    ensures bxx.n == fh.n && byy.n == fh.n && b0x.n == fh.n && b0y.n == fh.n && b00.n == fh.n
    ensures fh.Contents() == RemoveIndices(old(fh.Contents()), B) && bxx.Contents() == RemoveIndices(old(bxx.Contents()), B)
    ensures byy.Contents() == RemoveIndices(old(byy.Contents()), B) && b0x.Contents() == RemoveIndices(old(b0x.Contents()), B)
    ensures b0y.Contents() == RemoveIndices(old(b0y.Contents()), B) && b00.Contents() == RemoveIndices(old(b00.Contents()), B)
  {
    ghost var v0, v1, v2, v3, v4, v5 := fh.Contents(), bxx.Contents(), byy.Contents(), b0x.Contents(), b0y.Contents(), b00.Contents();
    var n := |B|;
    while n > 0
      invariant 0 <= n <= |B|
      invariant fh.Valid() && bxx.Valid() && byy.Valid() && b0x.Valid() && b0y.Valid() && b00.Valid()
      invariant fh.n == |v0| - (|B| - n)
      invariant bxx.n == fh.n && byy.n == fh.n && b0x.n == fh.n && b0y.n == fh.n && b00.n == fh.n
      invariant fh.Contents() == RemoveIndices(v0, B[n..]) && bxx.Contents() == RemoveIndices(v1, B[n..])
      invariant byy.Contents() == RemoveIndices(v2, B[n..]) && b0x.Contents() == RemoveIndices(v3, B[n..])
      invariant b0y.Contents() == RemoveIndices(v4, B[n..]) && b00.Contents() == RemoveIndices(v5, B[n..])
    {
      n := n - 1;
      RemoveBoundaryStep(fh, bxx, byy, b0x, b0y, b00, B, n, v0, v1, v2, v3, v4, v5);
    }
    assert B[0..] == B;
  }

  /** One round of the descending walk on the six vectors: entry B[n] leaves each, extending the removed suffix of B by one. */
  method RemoveBoundaryStep(fh: Vector, bxx: Vector, byy: Vector, b0x: Vector, b0y: Vector, b00: Vector, B: seq<int>, n: nat,
                            ghost v0: seq<real>, ghost v1: seq<real>, ghost v2: seq<real>,
                            ghost v3: seq<real>, ghost v4: seq<real>, ghost v5: seq<real>)
    requires Distinct([fh, bxx, byy, b0x, b0y, b00])
    requires StrictlyIncreasing(B) && IndicesBelow(B, |v0|) && n < |B|
    requires |v1| == |v0| && |v2| == |v0| && |v3| == |v0| && |v4| == |v0| && |v5| == |v0|
    requires fh.Valid() && bxx.Valid() && byy.Valid() && b0x.Valid() && b0y.Valid() && b00.Valid()
    requires fh.Contents() == RemoveIndices(v0, B[n + 1..]) && bxx.Contents() == RemoveIndices(v1, B[n + 1..])
    requires byy.Contents() == RemoveIndices(v2, B[n + 1..]) && b0x.Contents() == RemoveIndices(v3, B[n + 1..])
    requires b0y.Contents() == RemoveIndices(v4, B[n + 1..]) && b00.Contents() == RemoveIndices(v5, B[n + 1..])
    modifies fh, bxx, byy, b0x, b0y, b00
    ensures fh.Valid() && bxx.Valid() && byy.Valid() && b0x.Valid() && b0y.Valid() && b00.Valid()
    ensures fh.Contents() == RemoveIndices(v0, B[n..]) && bxx.Contents() == RemoveIndices(v1, B[n..])
    ensures byy.Contents() == RemoveIndices(v2, B[n..]) && b0x.Contents() == RemoveIndices(v3, B[n..])
    ensures b0y.Contents() == RemoveIndices(v4, B[n..]) && b00.Contents() == RemoveIndices(v5, B[n..])
  {
    RemoveIndicesStep(v0, B, n);
    RemoveIndicesStep(v1, B, n);
    RemoveIndicesStep(v2, B, n);
    RemoveIndicesStep(v3, B, n);
    RemoveIndicesStep(v4, B, n);
    RemoveIndicesStep(v5, B, n);
    RemoveIndexFromVectors(fh, bxx, byy, b0x, b0y, b00, B[n]);
  }

  /** `M_xx + M_yy + M_0x + M_0y + M_00` on the Matrix class: a fresh matrix. */
  method SumMatrices(Mxx: Matrix, Myy: Matrix, M0x: Matrix, M0y: Matrix, M00: Matrix) returns (S: Matrix)
    requires Mxx.Valid() && Myy.Valid() && M0x.Valid() && M0y.Valid() && M00.Valid()
    requires Mxx.n == Mxx.m && Myy.n == Mxx.n && Myy.m == Mxx.n && M0x.n == Mxx.n && M0x.m == Mxx.n
    requires M0y.n == Mxx.n && M0y.m == Mxx.n && M00.n == Mxx.n && M00.m == Mxx.n
    ensures fresh(S) && fresh(S.entries) && S.Valid() && S.n == S.m == Mxx.n
    ensures S.Contents() == SystemMatrix(Mxx.Contents(), Myy.Contents(), M0x.Contents(), M0y.Contents(), M00.Contents(), Mxx.n)
  {
    S := Mxx.Plus(Myy);
    S := S.Plus(M0x);
    S := S.Plus(M0y);
    S := S.Plus(M00);
  }

  /** `f_h + bc_xx + bc_yy + bc_0x + bc_0y + bc_00` on the Vector class: a fresh vector. */
  method SumLoads(fh: Vector, bxx: Vector, byy: Vector, b0x: Vector, b0y: Vector, b00: Vector) returns (r: Vector)
    requires fh.Valid() && bxx.Valid() && byy.Valid() && b0x.Valid() && b0y.Valid() && b00.Valid()
    requires bxx.n == fh.n && byy.n == fh.n && b0x.n == fh.n && b0y.n == fh.n && b00.n == fh.n
    ensures fresh(r) && fresh(r.entries) && r.Valid() && r.n == fh.n
    ensures r.Contents() == SystemLoad(fh.Contents(), bxx.Contents(), byy.Contents(), b0x.Contents(), b0y.Contents(), b00.Contents())
  {
    r := fh.Plus(bxx);
    r := r.Plus(byy);
    r := r.Plus(b0x);
    r := r.Plus(b0y);
    r := r.Plus(b00);
  }

  /** The matrix half of `solveSystem` before the solve: the removal walk on the five matrices, then their sum. */
  method ReduceMatrices(Mxx: Matrix, Myy: Matrix, M0x: Matrix, M0y: Matrix, M00: Matrix, B: seq<int>) returns (S: Matrix)
    requires Distinct([Mxx, Myy, M0x, M0y, M00])
    requires Mxx.Valid() && Myy.Valid() && M0x.Valid() && M0y.Valid() && M00.Valid()
    requires Mxx.n == Mxx.m && Myy.n == Mxx.n && Myy.m == Mxx.n && M0x.n == Mxx.n && M0x.m == Mxx.n
    requires M0y.n == Mxx.n && M0y.m == Mxx.n && M00.n == Mxx.n && M00.m == Mxx.n
    requires StrictlyIncreasing(B) && IndicesBelow(B, Mxx.n)
    modifies Mxx, Myy, M0x, M0y, M00
    ensures fresh(S) && fresh(S.entries) && S.Valid() && S.n == S.m == old(Mxx.n) - |B|
    ensures S.Contents() == ReducedMatrix(old(Mxx.Contents()), old(Myy.Contents()), old(M0x.Contents()),
                                          old(M0y.Contents()), old(M00.Contents()), B)
  {
    ghost var system := ReducedMatrix(Mxx.Contents(), Myy.Contents(), M0x.Contents(), M0y.Contents(), M00.Contents(), B);
    RemoveBoundaryFromMatrices(Mxx, Myy, M0x, M0y, M00, B);
    S := SumMatrices(Mxx, Myy, M0x, M0y, M00);
    assert S.Contents() == system;
  }

  /** The vector half of `solveSystem` before the solve: the removal walk on the six vectors, then their sum. */
  method ReduceLoads(fh: Vector, bxx: Vector, byy: Vector, b0x: Vector, b0y: Vector, b00: Vector, B: seq<int>) returns (r: Vector)
    requires Distinct([fh, bxx, byy, b0x, b0y, b00])
    requires fh.Valid() && bxx.Valid() && byy.Valid() && b0x.Valid() && b0y.Valid() && b00.Valid()
    requires bxx.n == fh.n && byy.n == fh.n && b0x.n == fh.n && b0y.n == fh.n && b00.n == fh.n
    requires StrictlyIncreasing(B) && IndicesBelow(B, fh.n)
    modifies fh, bxx, byy, b0x, b0y, b00
    ensures fresh(r) && fresh(r.entries) && r.Valid() && r.n == old(fh.n) - |B|
    ensures r.Contents() == ReducedLoad(old(fh.Contents()), old(bxx.Contents()), old(byy.Contents()),
                                        old(b0x.Contents()), old(b0y.Contents()), old(b00.Contents()), B)
  {
    ghost var load := ReducedLoad(fh.Contents(), bxx.Contents(), byy.Contents(), b0x.Contents(), b0y.Contents(), b00.Contents(), B);
    RemoveBoundaryFromVectors(fh, bxx, byy, b0x, b0y, b00, B);
    r := SumLoads(fh, bxx, byy, b0x, b0y, b00);
    assert r.Contents() == load;
  }

  /**
   * `solveSystem`: the boundary rows, columns and entries are removed from
   * the assembled objects, the sums are solved, and zeros go back in
   * ascending order. The assembled objects are taken as inputs; the solve
   * needs the reduced system to have nonzero pivots and at least one unknown.
   */
  method SolveSystem(Mxx: Matrix, Myy: Matrix, M0x: Matrix, M0y: Matrix, M00: Matrix,
                     fh: Vector, bxx: Vector, byy: Vector, b0x: Vector, b0y: Vector, b00: Vector,
                     B: seq<int>) returns (coefficients: Vector)
    requires Distinct([Mxx, Myy, M0x, M0y, M00]) && Distinct([fh, bxx, byy, b0x, b0y, b00])
    requires Mxx.Valid() && Myy.Valid() && M0x.Valid() && M0y.Valid() && M00.Valid()
    requires fh.Valid() && bxx.Valid() && byy.Valid() && b0x.Valid() && b0y.Valid() && b00.Valid()
    requires Mxx.n == Mxx.m && Myy.n == Mxx.n && Myy.m == Mxx.n && M0x.n == Mxx.n && M0x.m == Mxx.n && M0y.n == Mxx.n && M0y.m == Mxx.n && M00.n == Mxx.n && M00.m == Mxx.n && fh.n == Mxx.n
    requires bxx.n == fh.n && byy.n == fh.n && b0x.n == fh.n && b0y.n == fh.n && b00.n == fh.n
    requires StrictlyIncreasing(B) && IndicesBelow(B, fh.n) && |B| < fh.n
    requires NonzeroPivots(ReducedMatrix(Mxx.Contents(), Myy.Contents(), M0x.Contents(), M0y.Contents(), M00.Contents(), B))
    modifies Mxx, Myy, M0x, M0y, M00, fh, bxx, byy, b0x, b0y, b00
    ensures fresh(coefficients) && coefficients.Valid() && coefficients.n == old(fh.n)
    ensures coefficients.Contents() ==
      InsertZeros(LUSolution(ReducedMatrix(old(Mxx.Contents()), old(Myy.Contents()), old(M0x.Contents()),
                                           old(M0y.Contents()), old(M00.Contents()), B),
                             ReducedLoad(old(fh.Contents()), old(bxx.Contents()), old(byy.Contents()),
                                         old(b0x.Contents()), old(b0y.Contents()), old(b00.Contents()), B)),
                  B)
  {
    var S, r := ReduceSystem(Mxx, Myy, M0x, M0y, M00, fh, bxx, byy, b0x, b0y, b00, B);
    coefficients := Solve(S, r);
    InsertBoundaryZeros(coefficients, B);
  }

  /** The first half of `solveSystem`: the reduced matrix and the reduced load, as new objects. */
  method ReduceSystem(Mxx: Matrix, Myy: Matrix, M0x: Matrix, M0y: Matrix, M00: Matrix,
                      fh: Vector, bxx: Vector, byy: Vector, b0x: Vector, b0y: Vector, b00: Vector,
                      B: seq<int>) returns (S: Matrix, r: Vector)
    requires Distinct([Mxx, Myy, M0x, M0y, M00]) && Distinct([fh, bxx, byy, b0x, b0y, b00])
    requires Mxx.Valid() && Myy.Valid() && M0x.Valid() && M0y.Valid() && M00.Valid()
    requires fh.Valid() && bxx.Valid() && byy.Valid() && b0x.Valid() && b0y.Valid() && b00.Valid()
    requires Mxx.n == Mxx.m && Myy.n == Mxx.n && Myy.m == Mxx.n && M0x.n == Mxx.n && M0x.m == Mxx.n && M0y.n == Mxx.n && M0y.m == Mxx.n && M00.n == Mxx.n && M00.m == Mxx.n && fh.n == Mxx.n
    requires bxx.n == fh.n && byy.n == fh.n && b0x.n == fh.n && b0y.n == fh.n && b00.n == fh.n
    requires StrictlyIncreasing(B) && IndicesBelow(B, fh.n)
    modifies Mxx, Myy, M0x, M0y, M00, fh, bxx, byy, b0x, b0y, b00
    ensures fresh(S) && fresh(S.entries) && S.Valid() && S.n == S.m == old(fh.n) - |B|
    ensures fresh(r) && fresh(r.entries) && r.Valid() && r.n == old(fh.n) - |B|
    ensures S.Contents() == ReducedMatrix(old(Mxx.Contents()), old(Myy.Contents()), old(M0x.Contents()),
                                          old(M0y.Contents()), old(M00.Contents()), B)
    ensures r.Contents() == ReducedLoad(old(fh.Contents()), old(bxx.Contents()), old(byy.Contents()),
                                        old(b0x.Contents()), old(b0y.Contents()), old(b00.Contents()), B)
  {
    S := ReduceMatrices(Mxx, Myy, M0x, M0y, M00, B);
    r := ReduceLoads(fh, bxx, byy, b0x, b0y, b00, B);
  }
}
