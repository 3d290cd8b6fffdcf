/**
 * Assembly by scatter, the pattern shared by the load-vector and
 * mass-matrix routines (L2Projection.cpp, L2Projection/L2Projection.h) and
 * by the natural-boundary vectors: for every element K and every local DOF
 * j, a local inner product is added into the global vector at the DOF the
 * element's table row names; for the mass matrix every local pair (i, j)
 * is added at row rows1[K][i] and column rows2[K][j]. The local inner
 * products (quadrature sums of shape functions and coefficients) are a
 * given element integrator `local`.
 *
 * The folds LoadUpTo and MassUpTo say what the loops compute; LoadShare and
 * MassShare are the independent reading of an entry as the sum of every
 * contribution aimed at it, and the lemmas connect the two.
 */
module Assembly {
  import opened Vectors
  import opened Matrices

  /** A DOF table: every row has `width` entries, each a global DOF below Ng. */
  predicate TableFits(rows: seq<seq<int>>, width: nat, Ng: nat)
  {
    forall K :: 0 <= K < |rows| ==> |rows[K]| == width && forall j :: 0 <= j < width ==> 0 <= rows[K][j] < Ng
  }

  /** The entries of `row` are indices below n. */
  predicate RowFits(row: seq<int>, n: int)
  {
    forall j :: 0 <= j < |row| ==> 0 <= row[j] < n
  }

  // ---------------------------------------------------------------------
  // Load vectors.

  /** b after element K's local DOFs 0..j-1 each added their inner product at row[.]. */
  function LoadElement(b: seq<real>, row: seq<int>, K: int, local: (int, int) -> real, j: nat): (r: seq<real>)
    requires j <= |row| && RowFits(row, |b|)
    ensures |r| == |b|
  {
    if j == 0 then b
    else
      var c := LoadElement(b, row, K, local, j - 1);
      c[row[j - 1] := c[row[j - 1]] + local(K, j - 1)]
  }

  /** The load vector after elements 0..k-1, starting from zeros. */
  function LoadUpTo(Ng: nat, rows: seq<seq<int>>, width: nat, local: (int, int) -> real, k: nat): (b: seq<real>)
    requires TableFits(rows, width, Ng) && k <= |rows|
    ensures |b| == Ng
  {
    if k == 0 then Zeros(Ng)
    else LoadElement(LoadUpTo(Ng, rows, width, local, k - 1), rows[k - 1], k - 1, local, width)
  }

  /** The sum of element K's contributions aimed at DOF I from its local DOFs 0..j-1. */
  function ElementShare(row: seq<int>, K: int, local: (int, int) -> real, I: int, j: nat): real
    requires j <= |row|
  {
    if j == 0 then 0.0
    else ElementShare(row, K, local, I, j - 1) + (if row[j - 1] == I then local(K, j - 1) else 0.0)
  }

  /** The sum of every contribution aimed at DOF I from elements 0..k-1. */
  function LoadShare(rows: seq<seq<int>>, width: nat, local: (int, int) -> real, I: int, k: nat): real
    requires k <= |rows| && forall K :: 0 <= K < |rows| ==> |rows[K]| == width
  {
    if k == 0 then 0.0
    else LoadShare(rows, width, local, I, k - 1) + ElementShare(rows[k - 1], k - 1, local, I, width)
  }

  /** One element's pass adds, at each DOF, exactly the contributions aimed at it. */
  lemma {:induction false} LoadElementEntry(b: seq<real>, row: seq<int>, K: int, local: (int, int) -> real, j: nat, I: int)
    requires j <= |row| && RowFits(row, |b|) && 0 <= I < |b|
    ensures LoadElement(b, row, K, local, j)[I] == b[I] + ElementShare(row, K, local, I, j)
  {
    if j > 0 {
      LoadElementEntry(b, row, K, local, j - 1, I);
    }
  }

  /** Entry I of the assembled load vector is the sum of the contributions aimed at DOF I. */
  lemma {:induction false} LoadEntry(Ng: nat, rows: seq<seq<int>>, width: nat, local: (int, int) -> real, k: nat, I: int)
    requires TableFits(rows, width, Ng) && k <= |rows| && 0 <= I < Ng
    ensures LoadUpTo(Ng, rows, width, local, k)[I] == LoadShare(rows, width, local, I, k)
  {
    if k > 0 {
      LoadEntry(Ng, rows, width, local, k - 1, I);
      LoadElementEntry(LoadUpTo(Ng, rows, width, local, k - 1), rows[k - 1], k - 1, local, width, I);
    }
  }

  /** A row that never names DOF I contributes nothing to it. */
  lemma {:induction false} ElementShareAbsent(row: seq<int>, K: int, local: (int, int) -> real, I: int, j: nat)
    requires j <= |row| && forall i :: 0 <= i < j ==> row[i] != I
    ensures ElementShare(row, K, local, I, j) == 0.0
  {
    if j > 0 {
      ElementShareAbsent(row, K, local, I, j - 1);
    }
  }

  /** A DOF that no element's row names keeps its initial zero. */
  lemma {:induction false} LoadUntouched(Ng: nat, rows: seq<seq<int>>, width: nat, local: (int, int) -> real, k: nat, I: int)
    requires TableFits(rows, width, Ng) && k <= |rows| && 0 <= I < Ng
    requires forall K, j :: 0 <= K < k && 0 <= j < width ==> rows[K][j] != I
    ensures LoadUpTo(Ng, rows, width, local, k)[I] == 0.0
  {
    if k > 0 {
      LoadUntouched(Ng, rows, width, local, k - 1, I);
      LoadElementEntry(LoadUpTo(Ng, rows, width, local, k - 1), rows[k - 1], k - 1, local, width, I);
      ElementShareAbsent(rows[k - 1], k - 1, local, I, width);
    }
  }

  /** `b[row[j]] += innerProduct` for the local DOFs of one element, in order. */
  method ScatterLoad(b: Vector, row: seq<int>, K: int, local: (int, int) -> real)
    requires b.Valid() && RowFits(row, b.n)
    modifies b.entries
    ensures b.Valid() && b.Contents() == LoadElement(old(b.Contents()), row, K, local, |row|)
  {
    for j := 0 to |row|
      invariant b.Valid() && b.Contents() == LoadElement(old(b.Contents()), row, K, local, j)
    {
      var innerProduct := local(K, j);
      b.AddTo(row[j], innerProduct);
    }
  }

  // ---------------------------------------------------------------------
  // Mass matrices.

  /** A is n-by-m and the two rows name valid row and column indices of it. */
  predicate PairFits(A: Mat, m: nat, r1: seq<int>, r2: seq<int>)
  {
    IsShape(A, |A|, m) && RowFits(r1, |A|) && RowFits(r2, m)
  }

  /** A after element K's pairs (i, j') for the columns j' < j were added at (r1[i], r2[j']). */
  function MassCols(A: Mat, m: nat, r1: seq<int>, r2: seq<int>, K: int, local: (int, int, int) -> real, i: nat, j: nat): (R: Mat)
    requires PairFits(A, m, r1, r2) && i < |r1| && j <= |r2|
    ensures IsShape(R, |A|, m)
  {
    if j == 0 then A
    else
      var C := MassCols(A, m, r1, r2, K, local, i, j - 1);
      C[r1[i] := C[r1[i]][r2[j - 1] := C[r1[i]][r2[j - 1]] + local(K, i, j - 1)]]
  }

  /** A after element K's local rows 0..i-1 were added, each over all its columns. */
  function MassElement(A: Mat, m: nat, r1: seq<int>, r2: seq<int>, K: int, local: (int, int, int) -> real, i: nat): (R: Mat)
    requires PairFits(A, m, r1, r2) && i <= |r1|
    ensures IsShape(R, |A|, m)
  {
    if i == 0 then A
    else MassCols(MassElement(A, m, r1, r2, K, local, i - 1), m, r1, r2, K, local, i - 1, |r2|)
  }

  /** The mass matrix after elements 0..k-1, starting from the n-by-m zero matrix. */
  function MassUpTo(n: nat, m: nat, rows1: seq<seq<int>>, rows2: seq<seq<int>>, w1: nat, w2: nat,
                    local: (int, int, int) -> real, k: nat): (M: Mat)
    requires TableFits(rows1, w1, n) && TableFits(rows2, w2, m) && |rows1| == |rows2| && k <= |rows1|
    ensures IsShape(M, n, m)
  {
    if k == 0 then ZeroMat(n, m)
    else MassElement(MassUpTo(n, m, rows1, rows2, w1, w2, local, k - 1), m, rows1[k - 1], rows2[k - 1], k - 1, local, w1)
  }

  /** The local pair (i, j) of element K, counted at (I, J) when its rows name I and J. */
  function PairTerm(r1: seq<int>, r2: seq<int>, K: int, local: (int, int, int) -> real, I: int, J: int, i: nat, j: nat): real
    requires i < |r1| && j < |r2|
  {
    if r1[i] == I && r2[j] == J then local(K, i, j) else 0.0
  }

  /** Row i's terms aimed at (I, J), over the columns below j. */
  function RowShare(r1: seq<int>, r2: seq<int>, K: int, local: (int, int, int) -> real, I: int, J: int, i: nat, j: nat): real
    requires i < |r1| && j <= |r2|
  {
    if j == 0 then 0.0
    else RowShare(r1, r2, K, local, I, J, i, j - 1) + PairTerm(r1, r2, K, local, I, J, i, j - 1)
  }

  /** Element K's terms aimed at (I, J), over the local rows below i. */
  function PairShare(r1: seq<int>, r2: seq<int>, K: int, local: (int, int, int) -> real, I: int, J: int, i: nat): real
    requires i <= |r1|
  {
    if i == 0 then 0.0
    else PairShare(r1, r2, K, local, I, J, i - 1) + RowShare(r1, r2, K, local, I, J, i - 1, |r2|)
  }

  /** Every term aimed at (I, J) from elements 0..k-1. */
  function MassShare(rows1: seq<seq<int>>, rows2: seq<seq<int>>, w1: nat, local: (int, int, int) -> real,
                     I: int, J: int, k: nat): real
    requires k <= |rows1| && k <= |rows2| && forall K :: 0 <= K < |rows1| ==> |rows1[K]| == w1
  {
    if k == 0 then 0.0
    else MassShare(rows1, rows2, w1, local, I, J, k - 1) + PairShare(rows1[k - 1], rows2[k - 1], k - 1, local, I, J, w1)
  }

  lemma {:induction false} MassColsEntry(A: Mat, m: nat, r1: seq<int>, r2: seq<int>, K: int, local: (int, int, int) -> real,
                                         i: nat, j: nat, I: int, J: int)
    requires PairFits(A, m, r1, r2) && i < |r1| && j <= |r2| && 0 <= I < |A| && 0 <= J < m
    ensures MassCols(A, m, r1, r2, K, local, i, j)[I][J] == A[I][J] + RowShare(r1, r2, K, local, I, J, i, j)
  {
    if j > 0 {
      MassColsEntry(A, m, r1, r2, K, local, i, j - 1, I, J);
    }
  }

  lemma {:induction false} MassElementEntry(A: Mat, m: nat, r1: seq<int>, r2: seq<int>, K: int, local: (int, int, int) -> real,
                                            i: nat, I: int, J: int)
    requires PairFits(A, m, r1, r2) && i <= |r1| && 0 <= I < |A| && 0 <= J < m
    ensures MassElement(A, m, r1, r2, K, local, i)[I][J] == A[I][J] + PairShare(r1, r2, K, local, I, J, i)
  {
    if i > 0 {
      MassElementEntry(A, m, r1, r2, K, local, i - 1, I, J);
      MassColsEntry(MassElement(A, m, r1, r2, K, local, i - 1), m, r1, r2, K, local, i - 1, |r2|, I, J);
    }
  }

  /** Entry (I, J) of the assembled matrix is the sum of every local pair aimed at it. */
  lemma {:induction false} MassEntry(n: nat, m: nat, rows1: seq<seq<int>>, rows2: seq<seq<int>>, w1: nat, w2: nat,
                                     local: (int, int, int) -> real, k: nat, I: int, J: int)
    requires TableFits(rows1, w1, n) && TableFits(rows2, w2, m) && |rows1| == |rows2| && k <= |rows1|
    requires 0 <= I < n && 0 <= J < m
    ensures MassUpTo(n, m, rows1, rows2, w1, w2, local, k)[I][J] == MassShare(rows1, rows2, w1, local, I, J, k)
  {
    if k > 0 {
      MassEntry(n, m, rows1, rows2, w1, w2, local, k - 1, I, J);
      MassElementEntry(MassUpTo(n, m, rows1, rows2, w1, w2, local, k - 1), m, rows1[k - 1], rows2[k - 1], k - 1, local, w1, I, J);
    }
  }

  /** Row i of an element whose rows never pair I with J adds nothing at (I, J). */
  lemma {:induction false} RowShareAbsent(r1: seq<int>, r2: seq<int>, K: int, local: (int, int, int) -> real,
                                          I: int, J: int, i: nat, j: nat)
    requires i < |r1| && j <= |r2| && forall t :: 0 <= t < j ==> !(r1[i] == I && r2[t] == J)
    ensures RowShare(r1, r2, K, local, I, J, i, j) == 0.0
  {
    if j > 0 {
      RowShareAbsent(r1, r2, K, local, I, J, i, j - 1);
    }
  }

  lemma {:induction false} PairShareAbsent(r1: seq<int>, r2: seq<int>, K: int, local: (int, int, int) -> real,
                                           I: int, J: int, i: nat)
    requires i <= |r1| && forall s, t :: 0 <= s < i && 0 <= t < |r2| ==> !(r1[s] == I && r2[t] == J)
    ensures PairShare(r1, r2, K, local, I, J, i) == 0.0
  {
    if i > 0 {
      PairShareAbsent(r1, r2, K, local, I, J, i - 1);
      RowShareAbsent(r1, r2, K, local, I, J, i - 1, |r2|);
    }
  }

  /** DOFs I and J that no element holds together leave entry (I, J) at zero. */
  lemma {:induction false} MassUnshared(n: nat, m: nat, rows1: seq<seq<int>>, rows2: seq<seq<int>>, w1: nat, w2: nat,
                                        local: (int, int, int) -> real, k: nat, I: int, J: int)
    requires TableFits(rows1, w1, n) && TableFits(rows2, w2, m) && |rows1| == |rows2| && k <= |rows1|
    requires 0 <= I < n && 0 <= J < m
    requires forall K, i, j :: 0 <= K < k && 0 <= i < w1 && 0 <= j < w2 ==> !(rows1[K][i] == I && rows2[K][j] == J)
    ensures MassUpTo(n, m, rows1, rows2, w1, w2, local, k)[I][J] == 0.0
  {
    if k > 0 {
      MassUnshared(n, m, rows1, rows2, w1, w2, local, k - 1, I, J);
      MassElementEntry(MassUpTo(n, m, rows1, rows2, w1, w2, local, k - 1), m, rows1[k - 1], rows2[k - 1], k - 1, local, w1, I, J);
      PairShareAbsent(rows1[k - 1], rows2[k - 1], k - 1, local, I, J, w1);
    }
  }

  // ---------------------------------------------------------------------
  // Symmetry: on one table with a symmetric integrator the double sum over
  // local pairs can be taken column by column, which is the transposed entry.

  /** Column j's terms aimed at (I, J), over the local rows below i. */
  function ColShare(r: seq<int>, K: int, local: (int, int, int) -> real, I: int, J: int, j: nat, i: nat): real
    requires j < |r| && i <= |r|
  {
    if i == 0 then 0.0
    else ColShare(r, K, local, I, J, j, i - 1) + PairTerm(r, r, K, local, I, J, i - 1, j)
  }

  /** The column sums over the columns below j, each over the rows below i. */
  function ColumnsShare(r: seq<int>, K: int, local: (int, int, int) -> real, I: int, J: int, i: nat, j: nat): real
    requires i <= |r| && j <= |r|
  {
    if j == 0 then 0.0
    else ColumnsShare(r, K, local, I, J, i, j - 1) + ColShare(r, K, local, I, J, j - 1, i)
  }

  /** One more row adds row i's share to the column-by-column sum. */
  lemma {:induction false} ColumnsShareStep(r: seq<int>, K: int, local: (int, int, int) -> real, I: int, J: int, i: nat, j: nat)
    requires i < |r| && j <= |r|
    ensures ColumnsShare(r, K, local, I, J, i + 1, j) == ColumnsShare(r, K, local, I, J, i, j) + RowShare(r, r, K, local, I, J, i, j)
  {
    if j > 0 {
      ColumnsShareStep(r, K, local, I, J, i, j - 1);
    }
  }

  /** With no rows every column sum is empty. */
  lemma {:induction false} ColumnsShareNoRows(r: seq<int>, K: int, local: (int, int, int) -> real, I: int, J: int, j: nat)
    requires j <= |r|
    ensures ColumnsShare(r, K, local, I, J, 0, j) == 0.0
  {
    if j > 0 {
      ColumnsShareNoRows(r, K, local, I, J, j - 1);
    }
  }

  /** Summing the pairs row by row or column by column gives the same total. */
  lemma {:induction false} RowsColumnsAgree(r: seq<int>, K: int, local: (int, int, int) -> real, I: int, J: int, i: nat)
    requires i <= |r|
    ensures PairShare(r, r, K, local, I, J, i) == ColumnsShare(r, K, local, I, J, i, |r|)
  {
    if i > 0 {
      RowsColumnsAgree(r, K, local, I, J, i - 1);
      ColumnsShareStep(r, K, local, I, J, i - 1, |r|);
    } else {
      ColumnsShareNoRows(r, K, local, I, J, |r|);
    }
  }

  /** With a symmetric integrator, column j's share at (I, J) is row j's share at (J, I). */
  lemma {:induction false} ColumnIsTransposedRow(r: seq<int>, K: int, local: (int, int, int) -> real, I: int, J: int, j: nat, i: nat)
    requires j < |r| && i <= |r|
    requires forall s, t :: 0 <= s < |r| && 0 <= t < |r| ==> local(K, s, t) == local(K, t, s)
    ensures ColShare(r, K, local, I, J, j, i) == RowShare(r, r, K, local, J, I, j, i)
  {
    if i > 0 {
      ColumnIsTransposedRow(r, K, local, I, J, j, i - 1);
    }
  }

  lemma {:induction false} ColumnsAreTransposedRows(r: seq<int>, K: int, local: (int, int, int) -> real, I: int, J: int, j: nat)
    requires j <= |r|
    requires forall s, t :: 0 <= s < |r| && 0 <= t < |r| ==> local(K, s, t) == local(K, t, s)
    ensures ColumnsShare(r, K, local, I, J, |r|, j) == PairShare(r, r, K, local, J, I, j)
  {
    if j > 0 {
      ColumnsAreTransposedRows(r, K, local, I, J, j - 1);
      ColumnIsTransposedRow(r, K, local, I, J, j - 1, |r|);
    }
  }

  /** One element with a symmetric integrator contributes equally at (I, J) and (J, I). */
  lemma PairShareSymmetric(r: seq<int>, K: int, local: (int, int, int) -> real, I: int, J: int)
    requires forall s, t :: 0 <= s < |r| && 0 <= t < |r| ==> local(K, s, t) == local(K, t, s)
    ensures PairShare(r, r, K, local, I, J, |r|) == PairShare(r, r, K, local, J, I, |r|)
  {
    RowsColumnsAgree(r, K, local, I, J, |r|);
    ColumnsAreTransposedRows(r, K, local, I, J, |r|);
  }

  /** The integrator is symmetric in the local pair on every element. */
  predicate SymmetricIntegrator(local: (int, int, int) -> real, size: nat, w: nat)
  {
    forall K, s, t :: 0 <= K < size && 0 <= s < w && 0 <= t < w ==> local(K, s, t) == local(K, t, s)
  }

  /** On one table with a symmetric integrator the assembled matrix is symmetric. */
  lemma {:induction false} MassSymmetric(n: nat, rows: seq<seq<int>>, w: nat, local: (int, int, int) -> real, k: nat, I: int, J: int)
    requires TableFits(rows, w, n) && k <= |rows| && SymmetricIntegrator(local, |rows|, w)
    requires 0 <= I < n && 0 <= J < n
    ensures MassUpTo(n, n, rows, rows, w, w, local, k)[I][J] == MassUpTo(n, n, rows, rows, w, w, local, k)[J][I]
  {
    MassEntry(n, n, rows, rows, w, w, local, k, I, J);
    MassEntry(n, n, rows, rows, w, w, local, k, J, I);
    MassShareSymmetric(rows, w, local, k, I, J);
  }

  lemma {:induction false} MassShareSymmetric(rows: seq<seq<int>>, w: nat, local: (int, int, int) -> real, k: nat, I: int, J: int)
    requires k <= |rows| && (forall K :: 0 <= K < |rows| ==> |rows[K]| == w) && SymmetricIntegrator(local, |rows|, w)
    ensures MassShare(rows, rows, w, local, I, J, k) == MassShare(rows, rows, w, local, J, I, k)
  {
    if k > 0 {
      MassShareSymmetric(rows, w, local, k - 1, I, J);
      PairShareSymmetric(rows[k - 1], k - 1, local, I, J);
    }
  }

  /** `M[r1[i]][r2[j]] += innerProduct` for every local pair of one element, rows outside, columns inside. */
  method ScatterMass(A: Matrix, r1: seq<int>, r2: seq<int>, K: int, local: (int, int, int) -> real)
    requires A.Valid() && PairFits(A.Contents(), A.m, r1, r2)
    modifies A.entries
    ensures A.Valid() && A.Contents() == MassElement(old(A.Contents()), A.m, r1, r2, K, local, |r1|)
  {
    ghost var A0 := A.Contents();
    for i := 0 to |r1|
      invariant A.Valid() && A.Contents() == MassElement(A0, A.m, r1, r2, K, local, i)
    {
      ScatterMassRow(A, r1, r2, K, local, i);
    }
  }

  /** The inner loop of the element pass: local row i against every local column. */
  method ScatterMassRow(A: Matrix, r1: seq<int>, r2: seq<int>, K: int, local: (int, int, int) -> real, i: nat)
    requires A.Valid() && PairFits(A.Contents(), A.m, r1, r2) && i < |r1|
    modifies A.entries
    ensures A.Valid() && A.Contents() == MassCols(old(A.Contents()), A.m, r1, r2, K, local, i, |r2|)
  {
    ghost var A0 := A.Contents();
    for j := 0 to |r2|
      invariant A.Valid() && A.Contents() == MassCols(A0, A.m, r1, r2, K, local, i, j)
    {
      var innerProduct := local(K, i, j);
      A.AddTo(r1[i], r2[j], innerProduct);
    }
  }

  // ---------------------------------------------------------------------
  // Write-back passes: the DOFs a table names.

  /** DOF I is among the first j entries of the row. */
  predicate InRow(row: seq<int>, j: nat, I: int)
    requires j <= |row|
  {
    j > 0 && (row[j - 1] == I || InRow(row, j - 1, I))
  }

  /** DOF I is named by one of the rows 0..k-1 of the table. */
  predicate Covered(rows: seq<seq<int>>, width: nat, k: nat, I: int)
    requires k <= |rows| && forall K :: 0 <= K < |rows| ==> |rows[K]| == width
  {
    k > 0 && (InRow(rows[k - 1], width, I) || Covered(rows, width, k - 1, I))
  }

  lemma {:induction false} InRowOf(row: seq<int>, j: nat, i: nat)
    requires i < j <= |row|
    ensures InRow(row, j, row[i])
  {
    if i < j - 1 {
      InRowOf(row, j - 1, i);
    }
  }

  lemma {:induction false} InRowWitness(row: seq<int>, j: nat, I: int) returns (i: nat)
    requires j <= |row| && InRow(row, j, I)
    ensures i < j && row[i] == I
  {
    if row[j - 1] == I {
      i := j - 1;
    } else {
      i := InRowWitness(row, j - 1, I);
    }
  }

  /** Covered is exactly "some row below k names I". */
  lemma {:induction false} CoveredIff(rows: seq<seq<int>>, width: nat, k: nat, I: int)
    requires k <= |rows| && forall K :: 0 <= K < |rows| ==> |rows[K]| == width
    ensures Covered(rows, width, k, I) <==> exists K, j :: 0 <= K < k && 0 <= j < width && rows[K][j] == I
  {
    if k > 0 {
      CoveredIff(rows, width, k - 1, I);
      if InRow(rows[k - 1], width, I) {
        var j := InRowWitness(rows[k - 1], width, I);
        assert rows[k - 1][j] == I;
      }
      var row := rows[k - 1];
      forall j | 0 <= j < width && row[j] == I
        ensures InRow(row, width, I)
      {
        InRowOf(row, width, j);
      }
    }
  }

  // ---------------------------------------------------------------------
  // The element loops of the assembly routines.

  /** The element loop of the load-vector routines: every element of the table scattered in turn into b = 0. */
  method AssembleLoad(b: Vector, rows: seq<seq<int>>, width: nat, local: (int, int) -> real)
    requires b.Valid() && b.Contents() == Zeros(b.n) && TableFits(rows, width, b.n)
    modifies b.entries
    ensures b.Valid() && b.Contents() == LoadUpTo(b.n, rows, width, local, |rows|)
  {
    for K := 0 to |rows|
      invariant b.Valid() && b.Contents() == LoadUpTo(b.n, rows, width, local, K)
    {
      ScatterLoad(b, rows[K], K, local);
    }
  }

  /** The element loop of the mass-matrix routines: every element pair scattered in turn into A = 0. */
  method AssembleMass(A: Matrix, rows1: seq<seq<int>>, rows2: seq<seq<int>>, w1: nat, w2: nat,
                      local: (int, int, int) -> real)
    requires A.Valid() && A.Contents() == ZeroMat(A.n, A.m)
    requires TableFits(rows1, w1, A.n) && TableFits(rows2, w2, A.m) && |rows1| == |rows2|
    modifies A.entries
    ensures A.Valid() && A.Contents() == MassUpTo(A.n, A.m, rows1, rows2, w1, w2, local, |rows1|)
  {
    for K := 0 to |rows1|
      invariant A.Valid() && A.Contents() == MassUpTo(A.n, A.m, rows1, rows2, w1, w2, local, K)
    {
      ScatterMass(A, rows1[K], rows2[K], K, local);
    }
  }

  // ---------------------------------------------------------------------
  // The quadrature sum inside the mass routines.

  /** The mass integrand's quadrature sum: the weights times a phi psi at the points, added in order. */
  function QuadratureProduct(w: seq<real>, a: seq<real>, phi: seq<real>, psi: seq<real>): real
    requires |a| == |w| && |phi| == |w| && |psi| == |w|
  {
    if |w| == 0 then 0.0
    else QuadratureProduct(w[..|w| - 1], a[..|w| - 1], phi[..|w| - 1], psi[..|w| - 1])
         + w[|w| - 1] * (a[|w| - 1] * phi[|w| - 1] * psi[|w| - 1])
  }

  /** Equal derivative orders make the two shape-function samples interchangeable: the local product is symmetric. */
  lemma {:induction false} QuadratureProductSymmetric(w: seq<real>, a: seq<real>, phi: seq<real>, psi: seq<real>)
    requires |a| == |w| && |phi| == |w| && |psi| == |w|
    ensures QuadratureProduct(w, a, phi, psi) == QuadratureProduct(w, a, psi, phi)
  {
    if |w| > 0 {
      var n := |w| - 1;
      QuadratureProductSymmetric(w[..n], a[..n], phi[..n], psi[..n]);
      assert a[n] * phi[n] * psi[n] == a[n] * psi[n] * phi[n];
    }
  }

  /** Per-element quadrature data: the weights, the coefficient and w shape-function samples at each point. */
  predicate QuadratureData(size: nat, w: nat, weights: seq<seq<real>>, coeffs: seq<seq<real>>, samples: seq<seq<seq<real>>>)
  {
    |weights| == size && |coeffs| == size && |samples| == size &&
    forall K :: 0 <= K < size ==>
      |coeffs[K]| == |weights[K]| && |samples[K]| == w &&
      forall j :: 0 <= j < w ==> |samples[K][j]| == |weights[K]|
  }

  /**
   * An integrator that is the quadrature product of the same derivative
   * order on both sides is symmetric, so the single-order mass routines
   * assemble a symmetric matrix.
   */
  lemma QuadratureIntegratorSymmetric(local: (int, int, int) -> real, size: nat, w: nat,
                                      weights: seq<seq<real>>, coeffs: seq<seq<real>>, samples: seq<seq<seq<real>>>)
    requires QuadratureData(size, w, weights, coeffs, samples)
    requires forall K, s, t :: 0 <= K < size && 0 <= s < w && 0 <= t < w ==>
      local(K, s, t) == QuadratureProduct(weights[K], coeffs[K], samples[K][s], samples[K][t])
    ensures SymmetricIntegrator(local, size, w)
  {
    forall K, s, t | 0 <= K < size && 0 <= s < w && 0 <= t < w
      ensures local(K, s, t) == local(K, t, s)
    {
      QuadratureProductSymmetric(weights[K], coeffs[K], samples[K][s], samples[K][t]);
    }
  }

  // ---------------------------------------------------------------------
  // The essential boundary vectors: per DOF, a row of the mass matrix
  // against the prescribed values at the constrained DOFs.

  /** The first n entries of target, zeros after: the vector once DOFs 0 .. n-1 have been written. */
  function Filled(target: seq<real>, n: int): (r: seq<real>)
    ensures |r| == |target|
  {
    seq(|target|, I requires 0 <= I < |target| => if I < n then target[I] else 0.0)
  }

  /** Writing DOF n's target entry extends the written prefix by one. */
  lemma FilledStep(target: seq<real>, n: int)
    requires 0 <= n < |target|
    ensures Filled(target, n)[n] == 0.0
    ensures Filled(target, n)[n := target[n]] == Filled(target, n + 1)
  {
    var next, written := Filled(target, n + 1), Filled(target, n)[n := target[n]];
    assert forall I :: 0 <= I < |target| ==> written[I] == next[I];
  }

  /** c minus row[B[k]] times values[B[k]] for k = 0 .. n-1, subtracted in order. */
  function Subtracted(c: real, row: seq<real>, values: seq<real>, B: seq<int>, n: nat): real
    requires n <= |B| && forall k :: 0 <= k < |B| ==> 0 <= B[k] < |row| && B[k] < |values|
  {
    if n == 0 then c
    else Subtracted(c, row, values, B, n - 1) - row[B[n - 1]] * values[B[n - 1]]
  }

  /** With every prescribed value 0, nothing is subtracted. */
  lemma {:induction false} SubtractedHomogeneous(c: real, row: seq<real>, values: seq<real>, B: seq<int>, n: nat)
    requires n <= |B| && forall k :: 0 <= k < |B| ==> 0 <= B[k] < |row| && B[k] < |values|
    requires forall k :: 0 <= k < |B| ==> values[B[k]] == 0.0
    ensures Subtracted(c, row, values, B, n) == c
  {
    if n > 0 {
      SubtractedHomogeneous(c, row, values, B, n - 1);
    }
  }

  /** Only the row's entries in the boundary columns and the values at the boundary DOFs are read. */
  lemma {:induction false} SubtractedReadsBoundary(c: real, row1: seq<real>, row2: seq<real>,
                                                   values1: seq<real>, values2: seq<real>, B: seq<int>, n: nat)
    requires n <= |B| && forall k :: 0 <= k < |B| ==> 0 <= B[k] < |row1| && B[k] < |values1| && B[k] < |row2| && B[k] < |values2|
    requires forall k :: 0 <= k < |B| ==> row1[B[k]] == row2[B[k]] && values1[B[k]] == values2[B[k]]
    ensures Subtracted(c, row1, values1, B, n) == Subtracted(c, row2, values2, B, n)
  {
    if n > 0 {
      SubtractedReadsBoundary(c, row1, row2, values1, values2, B, n - 1);
    }
  }

  /** The subtraction is linear in the start value and the prescribed values together. */
  lemma {:induction false} SubtractedLinear(a: real, c1: real, c2: real, row: seq<real>, values1: seq<real>, values2: seq<real>,
                                            B: seq<int>, n: nat)
    requires |values1| == |values2|
    requires n <= |B| && forall k :: 0 <= k < |B| ==> 0 <= B[k] < |row| && B[k] < |values1|
    ensures var combined := seq(|values1|, i requires 0 <= i < |values1| => a * values1[i] + values2[i]);
      Subtracted(a * c1 + c2, row, combined, B, n) == a * Subtracted(c1, row, values1, B, n) + Subtracted(c2, row, values2, B, n)
  {
    var combined := seq(|values1|, i requires 0 <= i < |values1| => a * values1[i] + values2[i]);
    if n > 0 {
      SubtractedLinear(a, c1, c2, row, values1, values2, B, n - 1);
      var r, u1, u2 := row[B[n - 1]], values1[B[n - 1]], values2[B[n - 1]];
      assert combined[B[n - 1]] == a * u1 + u2;
      assert r * (a * u1 + u2) == a * (r * u1) + r * u2;
    }
  }
}

