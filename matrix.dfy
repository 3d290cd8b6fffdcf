/**
 * Dense real matrices (Matrix.cpp): an n-by-m buffer with entrywise
 * arithmetic, removal of one row and column, the first-row minors used by
 * the cofactor determinant, and the in-place LU solve without pivoting.
 * Values of type Mat give each operation its meaning.
 */
module Matrices {
  import opened Vectors

  type Mat = seq<seq<real>>

  /** `A` has `r` rows of `c` entries each. */
  predicate IsShape(A: Mat, r: int, c: int)
  {
    |A| == r && forall i :: 0 <= i < r ==> |A[i]| == c
  }

  predicate IsSquare(A: Mat)
  {
    IsShape(A, |A|, |A|)
  }

  /** Two matrices of one shape that agree entry by entry are equal. */
  lemma MatEq(A: Mat, B: Mat, r: nat, c: nat)
    requires IsShape(A, r, c) && IsShape(B, r, c)
    requires forall i, j :: 0 <= i < r && 0 <= j < c ==> A[i][j] == B[i][j]
    ensures A == B
  {
    forall i | 0 <= i < r
      ensures A[i] == B[i]
    {
      assert forall j :: 0 <= j < c ==> A[i][j] == B[i][j];
    }
  }

  function ZeroMat(r: nat, c: nat): (Z: Mat)
    ensures IsShape(Z, r, c)
    ensures forall i, j :: 0 <= i < r && 0 <= j < c ==> Z[i][j] == 0.0
  {
    seq(r, _ => Zeros(c))
  }

  function AddMat(A: Mat, B: Mat, r: nat, c: nat): (S: Mat)
    requires IsShape(A, r, c) && IsShape(B, r, c)
    ensures IsShape(S, r, c)
    ensures forall i, j :: 0 <= i < r && 0 <= j < c ==> S[i][j] == A[i][j] + B[i][j]
  {
    seq(r, i requires 0 <= i < r => Add(A[i], B[i]))
  }

  function ScaleMat(A: Mat, s: real, r: nat, c: nat): (S: Mat)
    requires IsShape(A, r, c)
    ensures IsShape(S, r, c)
    ensures forall i, j :: 0 <= i < r && 0 <= j < c ==> S[i][j] == A[i][j] * s
  {
    seq(r, i requires 0 <= i < r => seq(c, j requires 0 <= j < c => A[i][j] * s))
  }

  /** Every row of `A` with its entry at `k` removed. */
  function RemoveColumn(A: Mat, k: nat): (R: Mat)
    requires forall i :: 0 <= i < |A| ==> k < |A[i]|
    ensures |R| == |A|
    ensures forall i :: 0 <= i < |A| ==> R[i] == RemoveAt(A[i], k)
  {
    seq(|A|, i requires 0 <= i < |A| => RemoveAt(A[i], k))
  }

  /** `A` without row `k` and column `k`. */
  function RemoveRowCol(A: Mat, k: nat): (R: Mat)
    requires |A| > k && forall i :: 0 <= i < |A| ==> k < |A[i]|
  {
    RemoveColumn(RemoveAt(A, k), k)
  }

  /** Row-and-column removal keeps every entry outside the removed row and
   *  column, shifted up and left past the removed index. */
  lemma RemoveRowColEntries(A: Mat, k: nat, r: nat, c: nat)
    requires IsShape(A, r, c) && k < r && k < c
    ensures IsShape(RemoveRowCol(A, k), r - 1, c - 1)
    ensures forall i, j :: 0 <= i < r && 0 <= j < c && i != k && j != k ==>
      RemoveRowCol(A, k)[i - (if i > k then 1 else 0)][j - (if j > k then 1 else 0)] == A[i][j]
  {
    var R := RemoveRowCol(A, k);
    forall i, j | 0 <= i < r && 0 <= j < c && i != k && j != k
      ensures R[i - (if i > k then 1 else 0)][j - (if j > k then 1 else 0)] == A[i][j]
    {
      var i' := i - (if i > k then 1 else 0);
      assert RemoveAt(A, k)[i'] == A[i];
    }
  }

  /** The minor of entry (0, k): `A` without its first row and column `k`. */
  function SubMatrix(A: Mat, k: nat): (R: Mat)
    requires |A| >= 1 && forall i :: 0 <= i < |A| ==> k < |A[i]|
    ensures |R| == |A| - 1
    ensures forall i :: 0 <= i < |R| ==> R[i] == RemoveAt(A[i + 1], k)
  {
    RemoveColumn(A[1..], k)
  }

  /** `(-1)^i`, the cofactor sign. */
  function Sign(i: nat): real
  {
    if i % 2 == 1 then -1.0 else 1.0
  }

  /**
   * The determinant by cofactor expansion along the first row, with the
   * two-by-two formula as base case and a one-by-one matrix standing for its
   * single entry.
   */
  function Determinant(A: Mat): real
    requires IsSquare(A) && |A| >= 1
    decreases |A|, |A| + 1
  {
    if |A| == 1 then A[0][0]
    else if |A| == 2 then A[0][0] * A[1][1] - A[0][1] * A[1][0]
    else CofactorSum(A, |A|)
  }

  /** The first `i` terms of the first-row cofactor expansion of `A`. */
  function CofactorSum(A: Mat, i: nat): real
    requires IsSquare(A) && |A| >= 2 && i <= |A|
    decreases |A|, i
  {
    if i == 0 then 0.0
    else CofactorSum(A, i - 1) + CofactorTerm(A, i - 1)
  }

  /** Term k of the first-row expansion: the signed entry times its minor's determinant. */
  function CofactorTerm(A: Mat, k: nat): real
    requires IsSquare(A) && |A| >= 2 && k < |A|
    decreases |A|, 0
  {
    Sign(k) * A[0][k] * Determinant(SubMatrix(A, k))
  }

  /**
   * The determinant exactly as Matrix::determinant computes it: the
   * two-by-two formula, otherwise the cofactor loop for every size,
   * including sizes 0 and 1.
   */
  function SourceDeterminant(A: Mat): real
    requires IsSquare(A)
    decreases |A|, |A| + 1
  {
    if |A| == 2 then A[0][0] * A[1][1] - A[0][1] * A[1][0]
    else SourceCofactorSum(A, |A|)
  }

  function SourceCofactorSum(A: Mat, i: nat): real
    requires IsSquare(A) && i <= |A|
    decreases |A|, i
  {
    if i == 0 then 0.0
    else SourceCofactorSum(A, i - 1) + SourceCofactorTerm(A, i - 1)
  }

  function SourceCofactorTerm(A: Mat, k: nat): real
    requires IsSquare(A) && k < |A|
    decreases |A|, 0
  {
    Sign(k) * A[0][k] * SourceDeterminant(SubMatrix(A, k))
  }

  /** Minors of a square matrix are square. */
  lemma SubMatrixSquare(A: Mat, k: nat)
    requires IsSquare(A) && 1 <= |A| && k < |A|
    ensures IsSquare(SubMatrix(A, k))
  {
  }

  /** From size two on, the source's determinant is the cofactor determinant. */
  lemma {:induction false} SourceDeterminantAgrees(A: Mat)
    requires IsSquare(A) && |A| >= 2
    ensures SourceDeterminant(A) == Determinant(A)
    decreases |A|, 1
  {
    if |A| > 2 {
      SourceCofactorSumAgrees(A, |A|);
    }
  }

  lemma {:induction false} SourceCofactorSumAgrees(A: Mat, i: nat)
    requires IsSquare(A) && |A| >= 3 && i <= |A|
    ensures SourceCofactorSum(A, i) == CofactorSum(A, i)
    decreases |A|, 0, i
  {
    if i > 0 {
      SubMatrixSquare(A, i - 1);
      SourceDeterminantAgrees(SubMatrix(A, i - 1));
      SourceCofactorSumAgrees(A, i - 1);
      assert SourceCofactorTerm(A, i - 1) == CofactorTerm(A, i - 1);
    }
  }

  /** On a one-by-one matrix the source's expansion multiplies the entry by
   *  the empty determinant 0, so it returns 0 where the entry is meant. */
  lemma SourceDeterminantOneByOne()
    ensures SourceDeterminant([[1.0]]) == 0.0
    ensures Determinant([[1.0]]) == 1.0
  {
    assert SubMatrix([[1.0]], 0) == [];
  }

  function Identity(n: nat): (I: Mat)
    ensures IsShape(I, n, n)
    ensures forall i, j :: 0 <= i < n && 0 <= j < n ==> I[i][j] == if i == j then 1.0 else 0.0
  {
    seq(n, i requires 0 <= i < n => seq(n, j requires 0 <= j < n => if i == j then 1.0 else 0.0))
  }

  /** The minor of the identity at (0, 0) is the identity one size smaller. */
  lemma IdentityMinor(n: nat)
    requires n >= 1
    ensures SubMatrix(Identity(n), 0) == Identity(n - 1)
  {
    var S := SubMatrix(Identity(n), 0);
    forall i, j | 0 <= i < n - 1 && 0 <= j < n - 1
      ensures S[i][j] == Identity(n - 1)[i][j]
    {
      assert S[i] == RemoveAt(Identity(n)[i + 1], 0);
      assert S[i][j] == Identity(n)[i + 1][j + 1];
    }
    MatEq(S, Identity(n - 1), n - 1, n - 1);
  }

  /** A cofactor sum over first-row entries that are all zero is zero. */
  lemma {:induction false} CofactorSumOfZeroRow(A: Mat, i: nat)
    requires IsSquare(A) && |A| >= 2 && i <= |A|
    requires forall j :: 0 <= j < i ==> A[0][j] == 0.0
    ensures CofactorSum(A, i) == 0.0
  {
    if i > 0 {
      CofactorSumOfZeroRow(A, i - 1);
    }
  }

  /**
   * A matrix whose first row is zero has determinant 0, both as corrected and
   * as the source computes it, at every size from one on.
   */
  lemma DeterminantOfZeroRow(A: Mat)
    requires IsSquare(A) && |A| >= 1
    requires forall j :: 0 <= j < |A| ==> A[0][j] == 0.0
    ensures Determinant(A) == 0.0 && SourceDeterminant(A) == 0.0
  {
    if |A| == 1 {
      assert SourceCofactorTerm(A, 0) == 0.0 by {
        assert A[0][0] == 0.0;
      }
      assert SourceDeterminant(A) == SourceCofactorSum(A, 0) + SourceCofactorTerm(A, 0);
    } else {
      if |A| > 2 {
        CofactorSumOfZeroRow(A, |A|);
      } else {
        assert A[0][0] == 0.0 && A[0][1] == 0.0;
      }
      SourceDeterminantAgrees(A);
    }
  }

  /** The corrected determinant of the identity is 1 at every size. */
  lemma {:induction false} DeterminantOfIdentity(n: nat)
    requires n >= 1
    ensures Determinant(Identity(n)) == 1.0
  {
    if n > 2 {
      var I := Identity(n);
      IdentityMinor(n);
      DeterminantOfIdentity(n - 1);
      CofactorSumOfZeroRow(RowTail(I), n);
      CofactorSumSplit(I, n);
    }
  }

  /** `A` with the first entry of its first row replaced by 0. */
  function RowTail(A: Mat): (R: Mat)
    requires IsSquare(A) && |A| >= 1
    ensures IsSquare(R) && |R| == |A|
  {
    A[0 := A[0][0 := 0.0]]
  }

  /** The cofactor sum splits into the (0, 0) term and the sum with that entry zeroed. */
  lemma {:induction false} CofactorSumSplit(A: Mat, i: nat)
    requires IsSquare(A) && |A| >= 2 && 1 <= i <= |A|
    ensures CofactorSum(A, i) == A[0][0] * Determinant(SubMatrix(A, 0)) + CofactorSum(RowTail(A), i)
  {
    var R := RowTail(A);
    assert SubMatrix(R, 0) == SubMatrix(A, 0) by {
      assert R[1..] == A[1..];
    }
    if i > 1 {
      CofactorSumSplit(A, i - 1);
      assert SubMatrix(R, i - 1) == SubMatrix(A, i - 1) by {
        assert R[1..] == A[1..];
      }
    }
  }

  /** The determinant of the vertex matrix [[x1, y1, 1], [x2, y2, 1], [x3, y3, 1]]
   *  is the determinant of the edge vectors from the first vertex. */
  lemma VertexDeterminant(x1: real, y1: real, x2: real, y2: real, x3: real, y3: real)
    ensures Determinant([[x1, y1, 1.0], [x2, y2, 1.0], [x3, y3, 1.0]])
         == (x2 - x1) * (y3 - y1) - (x3 - x1) * (y2 - y1)
  {
    var A := [[x1, y1, 1.0], [x2, y2, 1.0], [x3, y3, 1.0]];
    MinorOfRows(A, 0, [y2, 1.0], [y3, 1.0]);
    MinorOfRows(A, 1, [x2, 1.0], [x3, 1.0]);
    MinorOfRows(A, 2, [x2, y2], [x3, y3]);
    assert CofactorSum(A, 1) == A[0][0] * Determinant(SubMatrix(A, 0));
    assert CofactorSum(A, 2) == CofactorSum(A, 1) - A[0][1] * Determinant(SubMatrix(A, 1));
    assert CofactorSum(A, 3) == CofactorSum(A, 2) + A[0][2] * Determinant(SubMatrix(A, 2));
  }

  lemma MinorOfRows(A: Mat, k: nat, r0: seq<real>, r1: seq<real>)
    requires IsSquare(A) && |A| == 3 && k < 3
    requires RemoveAt(A[1], k) == r0 && RemoveAt(A[2], k) == r1
    ensures SubMatrix(A, k) == [r0, r1]
  {
  }

  // ---------------------------------------------------------------------
  // LU factorisation without pivoting and the two triangular solves.

  /** Step `k` of the elimination loop: multipliers stored below the pivot in
   *  column `k`, the trailing block updated by them. Rows up to `k` and
   *  columns before `k` do not change. */
  function EliminationStep(A: Mat, k: nat): (R: Mat)
    requires IsSquare(A) && k < |A| && A[k][k] != 0.0
    ensures IsSquare(R) && |R| == |A|
  {
    seq(|A|, i requires 0 <= i < |A| => seq(|A|, j requires 0 <= j < |A| =>
      if i <= k || j < k then A[i][j]
      else if j == k then A[i][k] / A[k][k]
      else A[i][j] - A[i][k] / A[k][k] * A[k][j]))
  }

  /** The first `k` elimination steps, or None when a pivot met on the way is zero. */
  function Factor(A: Mat, k: nat): (r: Option<Mat>)
    requires IsSquare(A) && k <= |A|
    ensures r.Some? ==> IsSquare(r.value) && |r.value| == |A|
  {
    if k == 0 then Some(A)
    else match Factor(A, k - 1)
      case None => None
      case Some(B) => if B[k - 1][k - 1] == 0.0 then None else Some(EliminationStep(B, k - 1))
  }

  datatype Option<T> = None | Some(value: T)

  /** Every pivot of the elimination is nonzero; then Factor(A, |A|) holds L
   *  strictly below the diagonal and U on and above it. */
  predicate NonzeroPivots(A: Mat)
    requires IsSquare(A)
  {
    Factor(A, |A|).Some?
  }

  /** A run of elimination that completes has completed every shorter run. */
  lemma {:induction false} FactorPrefix(A: Mat, k: nat, m: nat)
    requires IsSquare(A) && k <= m <= |A| && Factor(A, m).Some?
    ensures Factor(A, k).Some?
    ensures k < m ==> Factor(A, k).value[k][k] != 0.0
    decreases m
  {
    if k < m {
      FactorPrefix(A, k, m - 1);
      if k == m - 1 {
        assert Factor(A, m - 1).Some?;
      }
    }
  }

  /** `row[lo] * x[lo] + ... + row[hi - 1] * x[hi - 1]`, summed left to right. */
  function DotRange(row: seq<real>, x: seq<real>, lo: nat, hi: nat): real
    requires lo <= hi <= |row| && hi <= |x|
    decreases hi - lo
  {
    if hi == lo then 0.0 else DotRange(row, x, lo, hi - 1) + row[hi - 1] * x[hi - 1]
  }

  /** The sum reads only `x[lo..hi]`. */
  lemma {:induction false} DotRangeFrame(row: seq<real>, x: seq<real>, y: seq<real>, lo: nat, hi: nat)
    requires lo <= hi <= |row| && hi <= |x| && hi <= |y|
    requires forall j :: lo <= j < hi ==> x[j] == y[j]
    ensures DotRange(row, x, lo, hi) == DotRange(row, y, lo, hi)
    decreases hi - lo
  {
    if hi > lo {
      DotRangeFrame(row, x, y, lo, hi - 1);
    }
  }

  /** The vector after the first `i` rounds of forward substitution with the
   *  unit lower factor stored in `LU`, starting from zeros. */
  function ForwardTo(LU: Mat, b: seq<real>, i: nat): (x: seq<real>)
    requires IsSquare(LU) && |b| == |LU| && i <= |LU|
    ensures |x| == |LU|
  {
    if i == 0 then Zeros(|LU|)
    else
      var y := ForwardTo(LU, b, i - 1);
      y[i - 1 := b[i - 1] - DotRange(LU[i - 1], y, 0, i - 1)]
  }

  /** The vector after back substitution with the upper factor has handled
   *  rows `n - 1` down to `i`, starting from `d`. */
  function BackFrom(LU: Mat, d: seq<real>, i: nat): (x: seq<real>)
    requires IsSquare(LU) && |d| == |LU| && i <= |LU|
    requires forall t :: i <= t < |LU| ==> LU[t][t] != 0.0
    ensures |x| == |LU|
    decreases |LU| - i
  {
    if i == |LU| then d
    else
      var y := BackFrom(LU, d, i + 1);
      y[i := (y[i] - DotRange(LU[i], y, i + 1, |LU|)) / LU[i][i]]
  }

  /** The factors of `A` when every pivot is nonzero. */
  function Factors(A: Mat): (LU: Mat)
    requires IsSquare(A) && NonzeroPivots(A)
    ensures IsSquare(LU) && |LU| == |A|
    ensures forall t :: 0 <= t < |A| ==> LU[t][t] != 0.0
  {
    var LU := Factor(A, |A|).value;
    assert forall t :: 0 <= t < |A| ==> LU[t][t] != 0.0 by {
      forall t | 0 <= t < |A|
        ensures LU[t][t] != 0.0
      {
        FactorPrefix(A, t, |A|);
        FactorKeepsPivot(A, t, |A|);
      }
    }
    LU
  }

  /** Steps after `t` leave the pivot (t, t) alone. */
  lemma {:induction false} FactorKeepsPivot(A: Mat, t: nat, m: nat)
    requires IsSquare(A) && t < m <= |A| && Factor(A, m).Some?
    ensures Factor(A, t + 1).Some? && Factor(A, m).value[t][t] == Factor(A, t + 1).value[t][t]
    ensures Factor(A, t + 1).value[t][t] == Factor(A, t).value[t][t]
    decreases m
  {
    FactorPrefix(A, t, m);
    FactorPrefix(A, t + 1, m);
    if m > t + 1 {
      FactorKeepsPivot(A, t, m - 1);
      FactorPrefix(A, m - 1, m);
    }
  }

  /** Peeling the first term off a sum. */
  lemma {:induction false} DotRangeFirst(row: seq<real>, x: seq<real>, lo: nat, hi: nat)
    requires lo < hi <= |row| && hi <= |x|
    ensures DotRange(row, x, lo, hi) == row[lo] * x[lo] + DotRange(row, x, lo + 1, hi)
    decreases hi - lo
  {
    if hi > lo + 1 {
      DotRangeFirst(row, x, lo, hi - 1);
    }
  }

  /** Later rounds of forward substitution leave the entries already computed alone. */
  lemma {:induction false} ForwardStable(LU: Mat, b: seq<real>, i: nat, k: nat)
    requires IsSquare(LU) && |b| == |LU| && i <= k <= |LU|
    ensures forall t :: 0 <= t < i ==> ForwardTo(LU, b, k)[t] == ForwardTo(LU, b, i)[t]
    decreases k
  {
    if k > i {
      ForwardStable(LU, b, i, k - 1);
    }
  }

  /** Row `i` of L d = b after forward substitution. */
  lemma ForwardRow(LU: Mat, b: seq<real>, i: nat)
    requires IsSquare(LU) && |b| == |LU| && i < |LU|
    ensures LowerTimes(LU, ForwardTo(LU, b, |LU|))[i] == b[i]
  {
    var d := ForwardTo(LU, b, |LU|);
    var y := ForwardTo(LU, b, i);
    ForwardStable(LU, b, i + 1, |LU|);
    ForwardStable(LU, b, i, i + 1);
    DotRangeFrame(LU[i], d, y, 0, i);
  }

  /** Forward substitution solves L d = b for the unit lower factor:
   *  d[i] + (sum over j < i of L[i][j] * d[j]) == b[i] for every row. */
  lemma ForwardSolvesLower(LU: Mat, b: seq<real>)
    requires IsSquare(LU) && |b| == |LU|
    ensures LowerTimes(LU, ForwardTo(LU, b, |LU|)) == b
  {
    forall i | 0 <= i < |LU|
      ensures LowerTimes(LU, ForwardTo(LU, b, |LU|))[i] == b[i]
    {
      ForwardRow(LU, b, i);
    }
  }

  /** Later rounds of back substitution leave the entries already computed alone. */
  lemma {:induction false} BackKeepsLater(LU: Mat, d: seq<real>, i: nat, k: nat)
    requires IsSquare(LU) && |d| == |LU| && i <= k <= |LU|
    requires forall t :: i <= t < |LU| ==> LU[t][t] != 0.0
    ensures forall t :: k <= t < |LU| ==> BackFrom(LU, d, i)[t] == BackFrom(LU, d, k)[t]
    decreases k - i
  {
    if k > i {
      BackKeepsLater(LU, d, i + 1, k);
    }
  }

  /** Rows back substitution has not reached yet still hold `d`. */
  lemma {:induction false} BackKeepsEarlier(LU: Mat, d: seq<real>, i: nat)
    requires IsSquare(LU) && |d| == |LU| && i <= |LU|
    requires forall t :: i <= t < |LU| ==> LU[t][t] != 0.0
    ensures forall t :: 0 <= t < i ==> BackFrom(LU, d, i)[t] == d[t]
    decreases |LU| - i
  {
    if i < |LU| {
      BackKeepsEarlier(LU, d, i + 1);
    }
  }

  /** Entry `i` of the back-substituted vector, in terms of the entries after
   *  it (stated from any starting row `s` up to `i`). */
  lemma BackEntry(LU: Mat, d: seq<real>, s: nat, i: nat)
    requires IsSquare(LU) && |d| == |LU| && s <= i < |LU|
    requires forall t :: 0 <= t < |LU| ==> LU[t][t] != 0.0
    ensures LU[i][i] * BackFrom(LU, d, s)[i]
         == d[i] - DotRange(LU[i], BackFrom(LU, d, i + 1), i + 1, |LU|)
  {
    BackKeepsLater(LU, d, s, i);
    BackKeepsEarlier(LU, d, i + 1);
    var q := d[i] - DotRange(LU[i], BackFrom(LU, d, i + 1), i + 1, |LU|);
    assert BackFrom(LU, d, i)[i] == q / LU[i][i];
    MultiplyQuotient(LU[i][i], q, BackFrom(LU, d, s)[i]);
  }

  /** The entries after `i` are final once row `i + 1` is done. */
  lemma BackTail(LU: Mat, d: seq<real>, s: nat, i: nat)
    requires IsSquare(LU) && |d| == |LU| && s <= i < |LU|
    requires forall t :: 0 <= t < |LU| ==> LU[t][t] != 0.0
    ensures DotRange(LU[i], BackFrom(LU, d, s), i + 1, |LU|)
         == DotRange(LU[i], BackFrom(LU, d, i + 1), i + 1, |LU|)
  {
    BackKeepsLater(LU, d, s, i + 1);
    DotRangeFrame(LU[i], BackFrom(LU, d, s), BackFrom(LU, d, i + 1), i + 1, |LU|);
  }

  /** Row `i` of U x = d after back substitution from row `s` on. */
  lemma BackRow(LU: Mat, d: seq<real>, s: nat, i: nat)
    requires IsSquare(LU) && |d| == |LU| && s <= i < |LU|
    requires forall t :: 0 <= t < |LU| ==> LU[t][t] != 0.0
    ensures DotRange(LU[i], BackFrom(LU, d, s), i, |LU|) == d[i]
  {
    BackEntry(LU, d, s, i);
    BackTail(LU, d, s, i);
    RowIdentity(LU[i], BackFrom(LU, d, s), BackFrom(LU, d, i + 1), i, |LU|, d[i]);
  }

  /** Back substitution solves U x = d for the upper factor:
   *  (sum over j >= i of U[i][j] * x[j]) == d[i] for every row. */
  lemma BackSolvesUpper(LU: Mat, d: seq<real>)
    requires IsSquare(LU) && |d| == |LU|
    requires forall t :: 0 <= t < |LU| ==> LU[t][t] != 0.0
    ensures UpperTimes(LU, BackFrom(LU, d, 0)) == d
  {
    var s: nat := 0;
    var x := BackFrom(LU, d, s);
    forall i | 0 <= i < |LU|
      ensures UpperTimes(LU, x)[i] == d[i]
    {
      BackRow(LU, d, s, i);
    }
  }

  /** A sum from `i` on is its first term plus the rest. */
  lemma RowIdentity(row: seq<real>, x: seq<real>, y: seq<real>, i: nat, n: nat, di: real)
    requires i < n <= |row| && n <= |x| && n <= |y|
    requires row[i] * x[i] == di - DotRange(row, y, i + 1, n)
    requires DotRange(row, x, i + 1, n) == DotRange(row, y, i + 1, n)
    ensures DotRange(row, x, i, n) == di
  {
    DotRangeFirst(row, x, i, n);
  }

  lemma MultiplyQuotient(a: real, q: real, r: real)
    requires a != 0.0 && r == q / a
    ensures a * r == q
  {
  }

  /** `L v` for the unit lower triangle stored strictly below the diagonal of `LU`. */
  function LowerTimes(LU: Mat, v: seq<real>): (r: seq<real>)
    requires IsSquare(LU) && |v| == |LU|
    ensures |r| == |LU|
  {
    seq(|LU|, i requires 0 <= i < |LU| => v[i] + DotRange(LU[i], v, 0, i))
  }

  /** `U x` for the upper triangle stored on and above the diagonal of `LU`. */
  function UpperTimes(LU: Mat, x: seq<real>): (r: seq<real>)
    requires IsSquare(LU) && |x| == |LU|
    ensures |r| == |LU|
  {
    seq(|LU|, i requires 0 <= i < |LU| => DotRange(LU[i], x, i, |LU|))
  }

  /** The vector `solve` returns satisfies L (U x) = b for the factors it computed. */
  lemma SolutionSatisfiesFactors(A: Mat, b: seq<real>)
    requires IsSquare(A) && |b| == |A| && NonzeroPivots(A)
    ensures LowerTimes(Factors(A), UpperTimes(Factors(A), LUSolution(A, b))) == b
  {
    var LU := Factors(A);
    var d := ForwardTo(LU, b, |A|);
    BackSolvesUpper(LU, d);
    ForwardSolvesLower(LU, b);
  }

  /** What `solve(A, b)` returns for a system whose pivots are all nonzero. */
  function LUSolution(A: Mat, b: seq<real>): (x: seq<real>)
    requires IsSquare(A) && |b| == |A| && NonzeroPivots(A)
    ensures |x| == |A|
  {
    var LU := Factors(A);
    BackFrom(LU, ForwardTo(LU, b, |A|), 0)
  }

  // ---------------------------------------------------------------------
  // The Matrix class.

  /** The entries of a two-dimensional buffer as a value. */
  ghost function ToMat(a: array2<real>): (A: Mat)
    reads a
    ensures IsShape(A, a.Length0, a.Length1)
    ensures forall i, j :: 0 <= i < a.Length0 && 0 <= j < a.Length1 ==> A[i][j] == a[i, j]
  {
    seq(a.Length0, i reads a requires 0 <= i < a.Length0 =>
      seq(a.Length1, j reads a requires 0 <= j < a.Length1 => a[i, j]))
  }

  /** A fresh `rows`-by-`columns` buffer of zeros. */
  method ZeroBuffer(rows: nat, columns: nat) returns (buffer: array2<real>)
    ensures fresh(buffer) && buffer.Length0 == rows && buffer.Length1 == columns
    ensures ToMat(buffer) == ZeroMat(rows, columns)
  {
    buffer := new real[rows, columns];
    var i := 0;
    while i < rows
      invariant 0 <= i <= rows
      invariant forall r, c :: 0 <= r < i && 0 <= c < columns ==> buffer[r, c] == 0.0
    {
      var j := 0;
      while j < columns
        invariant 0 <= j <= columns
        invariant forall r, c :: 0 <= r < i && 0 <= c < columns ==> buffer[r, c] == 0.0
        invariant forall c :: 0 <= c < j ==> buffer[i, c] == 0.0
      {
        buffer[i, j] := 0.0;
        j := j + 1;
      }
      i := i + 1;
    }
    MatEq(ToMat(buffer), ZeroMat(rows, columns), rows, columns);
  }

  /** The loop of Matrix::removeRowAndCol: copies every entry outside row
   *  and column `k` of `a` into a fresh buffer one smaller each way. */
  method WithoutRowAndCol(a: array2<real>, k: nat) returns (buffer: array2<real>)
    requires k < a.Length0 && k < a.Length1
    ensures fresh(buffer) && buffer.Length0 == a.Length0 - 1 && buffer.Length1 == a.Length1 - 1
    ensures ToMat(buffer) == RemoveRowCol(ToMat(a), k)
  {
    var n, m := a.Length0, a.Length1;
    buffer := new real[n - 1, m - 1];
    var i := 0;
    while i < n
      invariant 0 <= i <= n
      invariant forall r, c :: 0 <= r < n - 1 && 0 <= c < m - 1 && Skip(r, k) < i ==>
        buffer[r, c] == a[Skip(r, k), Skip(c, k)]
    {
      if i != k {
        CopyRowWithout(a, buffer, k, i, i - (if i > k then 1 else 0));
      }
      i := i + 1;
    }
    RemovedEntries(ToMat(a), ToMat(buffer), k, n, m);
  }

  /** Row i of `a`, less its entry in column k, copied into row `row` of `buffer`; the other rows keep their entries. */
  method CopyRowWithout(a: array2<real>, buffer: array2<real>, k: nat, i: nat, row: nat)
    requires buffer != a && k < a.Length1 && i < a.Length0 && row < buffer.Length0
    requires buffer.Length1 == a.Length1 - 1
    modifies buffer
    ensures forall r, c :: 0 <= r < buffer.Length0 && 0 <= c < buffer.Length1 && r != row ==>
      buffer[r, c] == old(buffer[r, c])
    ensures forall c :: 0 <= c < buffer.Length1 ==> buffer[row, c] == a[i, Skip(c, k)]
  {
    var j := 0;
    while j < a.Length1
      invariant 0 <= j <= a.Length1
      invariant forall r, c :: 0 <= r < buffer.Length0 && 0 <= c < buffer.Length1 && r != row ==>
        buffer[r, c] == old(buffer[r, c])
      invariant forall c :: 0 <= c < buffer.Length1 && Skip(c, k) < j ==> buffer[row, c] == a[i, Skip(c, k)]
    {
      if j != k {
        buffer[row, j - (if j > k then 1 else 0)] := a[i, j];
      }
      j := j + 1;
    }
  }

  /** A buffer holding entry (Skip(r, k), Skip(c, k)) of `A` at (r, c) is RemoveRowCol(A, k). */
  lemma RemovedEntries(A: Mat, R: Mat, k: nat, n: nat, m: nat)
    requires IsShape(A, n, m) && k < n && k < m && IsShape(R, n - 1, m - 1)
    requires forall r, c :: 0 <= r < n - 1 && 0 <= c < m - 1 ==> R[r][c] == A[Skip(r, k)][Skip(c, k)]
    ensures R == RemoveRowCol(A, k)
  {
    var S := RemoveRowCol(A, k);
    RemoveAtSkip(A, k);
    forall r, c | 0 <= r < n - 1 && 0 <= c < m - 1
      ensures S[r][c] == R[r][c]
    {
      RemoveAtSkip(A[Skip(r, k)], k);
    }
    MatEq(S, R, n - 1, m - 1);
  }

  /** An `n`-by-`m` matrix of reals held in an `n`-by-`m` buffer. */
  class Matrix {
    var n: nat
    var m: nat
    var entries: array2<real>

    ghost predicate Valid()
      reads this
    {
      entries.Length0 == n && entries.Length1 == m
    }

    /** The entries as a value. */
    ghost function Contents(): Mat
      reads this, entries
    {
      ToMat(entries)
    }

    /** A `rows`-by-`columns` matrix of zeros. */
    constructor (rows: nat, columns: nat)
      ensures Valid() && fresh(entries) && n == rows && m == columns
      ensures Contents() == ZeroMat(rows, columns)
    {
      n := rows;
      m := columns;
      var buffer := ZeroBuffer(rows, columns);
      entries := buffer;
    }

    /** A square matrix of zeros. */
    constructor Square(size: nat)
      ensures Valid() && fresh(entries) && n == size && m == size
      ensures Contents() == ZeroMat(size, size)
    {
      n := size;
      m := size;
      var buffer := ZeroBuffer(size, size);
      entries := buffer;
    }

    /** The read `M[i][j]`, with the row bound the source checks and the column bound of the buffer. */
    method Get(i: int, j: int) returns (x: real)
      requires Valid() && 0 <= i < n && 0 <= j < m
      ensures x == Contents()[i][j]
    {
      x := entries[i, j];
    }

    /** `M[i][j] = x`. */
    method Set(i: int, j: int, x: real)
      requires Valid() && 0 <= i < n && 0 <= j < m
      modifies entries
      ensures Valid()
      ensures Contents() == old(Contents())[i := old(Contents())[i][j := x]]
    {
      entries[i, j] := x;
      MatEq(Contents(), old(Contents())[i := old(Contents())[i][j := x]], n, m);
    }

    /** `M[i][j] += x`, the scatter step of assembly. */
    method AddTo(i: int, j: int, x: real)
      requires Valid() && 0 <= i < n && 0 <= j < m
      modifies entries
      ensures Valid()
      ensures Contents() == old(Contents())[i := old(Contents())[i][j := old(Contents())[i][j] + x]]
    {
      entries[i, j] := entries[i, j] + x;
      MatEq(Contents(), old(Contents())[i := old(Contents())[i][j := old(Contents())[i][j] + x]], n, m);
    }

    /** `M + N` for matrices of one shape, as a new matrix. */
    method Plus(other: Matrix) returns (sum: Matrix)
      requires Valid() && other.Valid() && n == other.n && m == other.m
      ensures fresh(sum) && fresh(sum.entries) && sum.Valid() && sum.n == n && sum.m == m
      ensures sum.Contents() == AddMat(Contents(), other.Contents(), n, m)
    {
      sum := new Matrix(n, m);
      var i := 0;
      while i < n
        invariant 0 <= i <= n
        invariant sum.Valid() && sum.n == n && sum.m == m && fresh(sum.entries)
        invariant forall r, c :: 0 <= r < i && 0 <= c < m ==> sum.entries[r, c] == entries[r, c] + other.entries[r, c]
      {
        var j := 0;
        while j < m
          invariant 0 <= j <= m
          invariant sum.Valid() && sum.n == n && sum.m == m && fresh(sum.entries)
          invariant forall r, c :: 0 <= r < i && 0 <= c < m ==> sum.entries[r, c] == entries[r, c] + other.entries[r, c]
          invariant forall c :: 0 <= c < j ==> sum.entries[i, c] == entries[i, c] + other.entries[i, c]
        {
          sum.entries[i, j] := entries[i, j] + other.entries[i, j];
          j := j + 1;
        }
        i := i + 1;
      }
      MatEq(sum.Contents(), AddMat(Contents(), other.Contents(), n, m), n, m);
    }

    /** `M *= s`. */
    method ScaleBy(s: real)
      requires Valid()
      modifies entries
      ensures Valid()
      ensures Contents() == ScaleMat(old(Contents()), s, n, m)
    {
      ghost var A := Contents();
      var i := 0;
      while i < n
        invariant 0 <= i <= n
        invariant forall r, c :: 0 <= r < n && 0 <= c < m ==> entries[r, c] == if r < i then A[r][c] * s else A[r][c]
      {
        var j := 0;
        while j < m
          invariant 0 <= j <= m
          invariant forall r, c :: 0 <= r < n && 0 <= c < m ==>
            entries[r, c] == if r < i || (r == i && c < j) then A[r][c] * s else A[r][c]
        {
          entries[i, j] := entries[i, j] * s;
          j := j + 1;
        }
        i := i + 1;
      }
      MatEq(Contents(), ScaleMat(A, s, n, m), n, m);
    }

    /** `M /= s`: every entry divided by `s`, which is scaling by `1 / s`. */
    method DivideBy(s: real)
      requires Valid() && s != 0.0
      modifies entries
      ensures Valid()
      ensures Contents() == ScaleMat(old(Contents()), 1.0 / s, n, m)
    {
      ghost var A := Contents();
      var i := 0;
      while i < n
        invariant 0 <= i <= n
        invariant forall r, c :: 0 <= r < n && 0 <= c < m ==> entries[r, c] == if r < i then A[r][c] / s else A[r][c]
      {
        var j := 0;
        while j < m
          invariant 0 <= j <= m
          invariant forall r, c :: 0 <= r < n && 0 <= c < m ==>
            entries[r, c] == if r < i || (r == i && c < j) then A[r][c] / s else A[r][c]
        {
          entries[i, j] := entries[i, j] / s;
          j := j + 1;
        }
        i := i + 1;
      }
      forall r, c | 0 <= r < n && 0 <= c < m
        ensures Contents()[r][c] == ScaleMat(A, 1.0 / s, n, m)[r][c]
      {
        assert A[r][c] / s == A[r][c] * (1.0 / s);
      }
      MatEq(Contents(), ScaleMat(A, 1.0 / s, n, m), n, m);
    }

    /** `M.removeRowAndCol(k)`: a fresh buffer without row `k` and column `k`. */
    method RemoveRowAndCol(k: int)
      requires Valid() && 0 <= k < n && k < m
      modifies this
      ensures Valid() && fresh(entries) && n == old(n) - 1 && m == old(m) - 1
      ensures Contents() == RemoveRowCol(old(Contents()), k)
    {
      var buffer := WithoutRowAndCol(entries, k);
      entries := buffer;
      n := n - 1;
      m := m - 1;
    }

    /** `M.subMatrix(k)`: a new matrix without the first row and column `k`. */
    method SubMatrixOf(k: int) returns (sub: Matrix)
      requires Valid() && n >= 1 && 0 <= k < m
      ensures fresh(sub) && fresh(sub.entries) && sub.Valid() && sub.n == n - 1 && sub.m == m - 1
      ensures sub.Contents() == SubMatrix(Contents(), k)
    {
      sub := new Matrix(n - 1, m - 1);
      var buffer := sub.entries;
      var i := 1;
      while i < n
        invariant 1 <= i <= n
        invariant sub.entries == buffer && sub.n == n - 1 && sub.m == m - 1
        invariant forall a, b :: 0 <= a < i - 1 && 0 <= b < m - 1 ==> buffer[a, b] == entries[a + 1, Skip(b, k)]
      {
        CopyRowWithout(entries, buffer, k, i, i - 1);
        i := i + 1;
      }
      ghost var A := Contents();
      ghost var S := SubMatrix(A, k);
      forall a, b | 0 <= a < n - 1 && 0 <= b < m - 1
        ensures ToMat(buffer)[a][b] == S[a][b]
      {
        RemoveAtSkip(A[a + 1], k);
      }
      MatEq(ToMat(buffer), S, n - 1, m - 1);
    }
  }

  // ---------------------------------------------------------------------
  // solve(A, b)

  /** One pass of the elimination loop for pivot `k`, in place. */
  method EliminationRound(a: array2<real>, k: nat)
    requires a.Length0 == a.Length1 && k < a.Length0 && a[k, k] != 0.0
    modifies a
    ensures ToMat(a) == EliminationStep(old(ToMat(a)), k)
  {
    ghost var B := ToMat(a);
    ghost var S := EliminationStep(B, k);
    var n := a.Length0;
    var i := k + 1;
    while i < n
      invariant k + 1 <= i <= n
      invariant forall r, c :: 0 <= r < n && 0 <= c < n ==> a[r, c] == if r < i then S[r][c] else B[r][c]
    {
      EliminateRow(a, k, i, B, S);
      i := i + 1;
    }
    MatEq(ToMat(a), S, n, n);
  }

  /** Row i of the pass for pivot k: its multiplier goes below the pivot and the row beyond column k is updated. */
  method EliminateRow(a: array2<real>, k: nat, i: nat, ghost B: Mat, ghost S: Mat)
    requires a.Length0 == a.Length1 == |B| && IsSquare(B) && k < i < a.Length0 && B[k][k] != 0.0
    requires S == EliminationStep(B, k)
    requires forall r, c :: 0 <= r < a.Length0 && 0 <= c < a.Length0 ==> a[r, c] == if r < i then S[r][c] else B[r][c]
    modifies a
    ensures forall r, c :: 0 <= r < a.Length0 && 0 <= c < a.Length0 ==> a[r, c] == if r <= i then S[r][c] else B[r][c]
  {
    var n := a.Length0;
    a[i, k] := a[i, k] / a[k, k];
    var j := k + 1;
    while j < n
      invariant k + 1 <= j <= n
      invariant forall r, c :: 0 <= r < n && 0 <= c < n ==>
        a[r, c] == if r < i || (r == i && (c == k || k < c < j)) then S[r][c] else B[r][c]
    {
      a[i, j] := a[i, j] - a[i, k] * a[k, j];
      j := j + 1;
    }
  }

  /** The elimination loop of solve: every pivot in turn, in place. */
  method Factorize(a: array2<real>)
    requires a.Length0 == a.Length1 && NonzeroPivots(ToMat(a))
    modifies a
    ensures ToMat(a) == Factors(old(ToMat(a)))
  {
    ghost var A0 := ToMat(a);
    var n := a.Length0;
    var k := 0;
    while k < n
      invariant 0 <= k <= n
      invariant Factor(A0, k).Some? && ToMat(a) == Factor(A0, k).value
    {
      FactorPrefix(A0, k, n);
      ghost var B := Factor(A0, k).value;
      assert a[k, k] == B[k][k];
      EliminationRound(a, k);
      assert Factor(A0, k + 1) == Some(EliminationStep(B, k));
      k := k + 1;
    }
  }

  /** The inner loop of both substitutions: row `i` of `lu` dotted with `x` over columns `lo` to `hi`. */
  method RowDot(lu: array2<real>, x: array<real>, i: nat, lo: nat, hi: nat) returns (s: real)
    requires i < lu.Length0 && lo <= hi <= lu.Length1 && hi <= x.Length
    ensures s == DotRange(ToMat(lu)[i], x[..], lo, hi)
  {
    ghost var row := ToMat(lu)[i];
    s := 0.0;
    var j := lo;
    while j < hi
      invariant lo <= j <= hi
      invariant s == DotRange(row, x[..], lo, j)
    {
      s := s + lu[i, j] * x[j];
      j := j + 1;
    }
  }

  /** Forward substitution of solve: x[0] = b[0], then
   *  x[i] = b[i] - (sum over j < i of L[i][j] * x[j]). */
  method ForwardSubstitute(lu: array2<real>, b: array<real>, x: array<real>)
    requires lu.Length0 == lu.Length1 == b.Length == x.Length >= 1 && x != b
    requires x[..] == Zeros(x.Length)
    modifies x
    ensures x[..] == ForwardTo(ToMat(lu), b[..], x.Length)
  {
    ghost var LU := ToMat(lu);
    var n := x.Length;
    x[0] := b[0];
    assert DotRange(LU[0], ForwardTo(LU, b[..], 0), 0, 0) == 0.0;
    assert x[..] == ForwardTo(LU, b[..], 1);
    var i := 1;
    while i < n
      invariant 1 <= i <= n
      invariant x[..] == ForwardTo(LU, b[..], i)
    {
      var s := RowDot(lu, x, i, 0, i);
      x[i] := b[i] - s;
      i := i + 1;
    }
  }

  /** Back substitution of solve: x[n - 1] /= U[n - 1][n - 1], then
   *  x[i] = (x[i] - (sum over j > i of U[i][j] * x[j])) / U[i][i]. */
  method BackSubstitute(lu: array2<real>, x: array<real>)
    requires lu.Length0 == lu.Length1 == x.Length >= 1
    requires forall t :: 0 <= t < x.Length ==> lu[t, t] != 0.0
    modifies x
    ensures x[..] == BackFrom(ToMat(lu), old(x[..]), 0)
  {
    ghost var LU := ToMat(lu);
    ghost var d := x[..];
    var n := x.Length;
    x[n - 1] := x[n - 1] / lu[n - 1, n - 1];
    assert x[..] == BackFrom(LU, d, n - 1);
    var i := n - 1;
    while i > 0
      invariant 0 <= i <= n - 1
      invariant x[..] == BackFrom(LU, d, i)
    {
      i := i - 1;
      var s := RowDot(lu, x, i, i + 1, n);
      x[i] := (x[i] - s) / lu[i, i];
    }
  }

  /**
   * `solve(A, b)`: factors `A` in place into its unit lower and upper
   * triangular parts (no pivoting), then solves L d = b forwards and
   * U x = d backwards. Needs every pivot nonzero.
   */
  method Solve(A: Matrix, b: Vector) returns (x: Vector)
    requires A.Valid() && b.Valid() && A.n == A.m == b.n && A.n >= 1
    requires NonzeroPivots(A.Contents())
    modifies A.entries
    ensures fresh(x) && fresh(x.entries) && x.Valid() && x.n == A.n
    ensures A.Contents() == Factors(old(A.Contents()))
    ensures x.Contents() == LUSolution(old(A.Contents()), old(b.Contents()))
  {
    x := new Vector(A.n);
    Factorize(A.entries);
    ForwardSubstitute(A.entries, b.entries, x.entries);
    BackSubstitute(A.entries, x.entries);
  }
}
