/**
 * Elimination of constrained degrees of freedom and their re-insertion.
 * The solvers remove the rows, columns and entries of every boundary index,
 * walking the sorted index list from its end so that each index still names
 * the same original row when it is removed; after the solve they insert a
 * zero at each boundary index, walking the list from its start, so that the
 * unknowns come back to their original places.
 */
module Elimination {
  import opened Vectors
  import opened Matrices

  /** The list is sorted with no repeats. */
  predicate StrictlyIncreasing(B: seq<int>)
  {
    forall i, j :: 0 <= i < j < |B| ==> B[i] < B[j]
  }

  /** Every index in the list lies in [0, n). */
  predicate IndicesBelow(B: seq<int>, n: int)
  {
    forall i :: 0 <= i < |B| ==> 0 <= B[i] < n
  }

  /** In a sorted list without repeats, entry `k` is at least `k` above the first. */
  lemma {:induction false} IncreasingSpread(B: seq<int>)
    requires StrictlyIncreasing(B)
    ensures forall k :: 0 <= k < |B| ==> B[0] + k <= B[k]
    decreases |B|
  {
    if |B| > 1 {
      IncreasingSpread(B[1..]);
      forall k | 1 <= k < |B|
        ensures B[0] + k <= B[k]
      {
        assert B[1..][k - 1] == B[k];
      }
    }
  }

  /** Sorted indices below `n` are at most `n` in number, and the first is at most `n - |B|`. */
  lemma SortedIndicesFit(B: seq<int>, n: int)
    requires StrictlyIncreasing(B) && IndicesBelow(B, n) && |B| > 0
    ensures |B| <= n && B[0] + |B| <= n
  {
    IncreasingSpread(B);
    assert B[0] + (|B| - 1) <= B[|B| - 1] < n;
  }

  /** Sorted indices below `n` are at most `n` in number. */
  lemma SortedCount(B: seq<int>, n: int)
    requires StrictlyIncreasing(B) && IndicesBelow(B, n)
    ensures |B| <= n || |B| == 0
  {
    if |B| > 0 {
      SortedIndicesFit(B, n);
    }
  }

  /**
   * `s` after removing the entries at B[|B| - 1], ..., B[1], B[0], in that
   * order: the descending walk of the removal loops.
   */
  function RemoveIndices<T>(s: seq<T>, B: seq<int>): (r: seq<T>)
    requires StrictlyIncreasing(B) && IndicesBelow(B, |s|)
    ensures |r| == |s| - |B|
    decreases |B|
  {
    if |B| == 0 then s
    else
      SortedIndicesFit(B, |s|);
      RemoveAt(RemoveIndices(s, B[1..]), B[0])
  }

  /**
   * `s` after inserting 0 at B[0], B[1], ..., B[|B| - 1], in that order: the
   * ascending walk of the re-insertion loops.
   */
  function InsertZeros(s: seq<real>, B: seq<int>): (r: seq<real>)
    requires StrictlyIncreasing(B) && IndicesBelow(B, |s| + |B|)
    ensures |r| == |s| + |B|
    decreases |B|
  {
    if |B| == 0 then s
    else
      SortedIndicesFit(B, |s| + |B|);
      InsertZeros(InsertAt(s, 0.0, B[0]), B[1..])
  }

  /** `s` with every entry at a listed index set to 0. */
  function ZeroAt(s: seq<real>, B: seq<int>): (r: seq<real>)
    ensures |r| == |s|
    ensures forall i :: 0 <= i < |s| ==> r[i] == if i in B then 0.0 else s[i]
  {
    seq(|s|, i requires 0 <= i < |s| => if i in B then 0.0 else s[i])
  }

  lemma RemoveAtUpdate<T>(s: seq<T>, c: nat, b: nat, x: T)
    requires b < c < |s|
    ensures RemoveAt(s[b := x], c) == RemoveAt(s, c)[b := x]
  {
  }

  lemma InsertAtRemoveAt(s: seq<real>, b: nat, x: real)
    requires b < |s|
    ensures InsertAt(RemoveAt(s, b), x, b) == s[b := x]
  {
    var r := InsertAt(RemoveAt(s, b), x, b);
    forall i | 0 <= i < |s|
      ensures r[i] == s[b := x][i]
    {
      if i > b {
        assert r[i] == RemoveAt(s, b)[i - 1];
      }
    }
  }

  /** Overwriting an entry below every removed index commutes with the removal. */
  lemma {:induction false} RemoveIndicesUpdate(s: seq<real>, B: seq<int>, b: nat, x: real)
    requires StrictlyIncreasing(B) && IndicesBelow(B, |s|)
    requires b < |s| && forall k :: 0 <= k < |B| ==> b < B[k]
    ensures b < |s| - |B|
    ensures RemoveIndices(s[b := x], B) == RemoveIndices(s, B)[b := x]
    decreases |B|
  {
    if |B| > 0 {
      SortedIndicesFit(B, |s|);
      RemoveIndicesUpdate(s, B[1..], b, x);
      RemoveAtUpdate(RemoveIndices(s, B[1..]), B[0], b, x);
    }
  }

  /** Removing the boundary entries and re-inserting zeros there gives the
   *  original vector with its boundary entries zeroed: every interior entry
   *  returns to its original index. */
  lemma {:induction false} ReinsertAfterRemoval(s: seq<real>, B: seq<int>)
    requires StrictlyIncreasing(B) && IndicesBelow(B, |s|)
    ensures InsertZeros(RemoveIndices(s, B), B) == ZeroAt(s, B)
    decreases |B|
  {
    if |B| > 0 {
      SortedIndicesFit(B, |s|);
      var b := B[0];
      var B1 := B[1..];
      var R1 := RemoveIndices(s, B1);
      var s' := s[b := 0.0];
      assert forall k :: 0 <= k < |B1| ==> b < B1[k];
      RemoveIndicesUpdate(s, B1, b, 0.0);
      InsertAtRemoveAt(R1, b, 0.0);
      assert InsertAt(RemoveAt(R1, b), 0.0, b) == RemoveIndices(s', B1);
      ReinsertAfterRemoval(s', B1);
      assert ZeroAt(s', B1) == ZeroAt(s, B);
    }
  }

  /** Re-inserting zeros keeps entries below every inserted index. */
  lemma {:induction false} InsertZerosKeepsBelow(s: seq<real>, B: seq<int>, i: nat)
    requires StrictlyIncreasing(B) && IndicesBelow(B, |s| + |B|)
    requires i < |s| && forall k :: 0 <= k < |B| ==> i < B[k]
    ensures InsertZeros(s, B)[i] == s[i]
    decreases |B|
  {
    if |B| > 0 {
      SortedIndicesFit(B, |s| + |B|);
      InsertZerosKeepsBelow(InsertAt(s, 0.0, B[0]), B[1..], i);
    }
  }

  /** After re-insertion every boundary index holds 0. */
  lemma {:induction false} InsertZerosAtBoundary(s: seq<real>, B: seq<int>)
    requires StrictlyIncreasing(B) && IndicesBelow(B, |s| + |B|)
    ensures forall k :: 0 <= k < |B| ==> InsertZeros(s, B)[B[k]] == 0.0
    decreases |B|
  {
    if |B| > 0 {
      SortedIndicesFit(B, |s| + |B|);
      var s' := InsertAt(s, 0.0, B[0]);
      InsertZerosAtBoundary(s', B[1..]);
      InsertZerosKeepsBelow(s', B[1..], B[0]);
      forall k | 1 <= k < |B|
        ensures InsertZeros(s, B)[B[k]] == 0.0
      {
        assert B[1..][k - 1] == B[k];
      }
    }
  }

  /** Removing the boundary indices after re-inserting them gives back the
   *  solved values, in their order. */
  lemma {:induction false} RemoveAfterReinsert(s: seq<real>, B: seq<int>)
    requires StrictlyIncreasing(B) && IndicesBelow(B, |s| + |B|)
    ensures RemoveIndices(InsertZeros(s, B), B) == s
    decreases |B|
  {
    if |B| > 0 {
      SortedIndicesFit(B, |s| + |B|);
      var s' := InsertAt(s, 0.0, B[0]);
      RemoveAfterReinsert(s', B[1..]);
      RemoveInserted(s, 0.0, B[0]);
    }
  }

  /** The list with `off` added to every index: the boundary indices of a block that starts at `off`. */
  function Shift(B: seq<int>, off: int): (r: seq<int>)
    ensures |r| == |B|
    ensures forall k :: 0 <= k < |B| ==> r[k] == B[k] + off
  {
    seq(|B|, k requires 0 <= k < |B| => B[k] + off)
  }

  /** Shifting keeps the order and moves the bound with the indices. */
  lemma ShiftedIndices(B: seq<int>, off: nat, n: int)
    requires StrictlyIncreasing(B) && IndicesBelow(B, n)
    ensures StrictlyIncreasing(Shift(B, off)) && IndicesBelow(Shift(B, off), n + off)
  {
  }

  /** Inserting inside a leading block leaves a trailing block alone. */
  lemma {:induction false} InsertZerosPrefix(a: seq<real>, b: seq<real>, B: seq<int>)
    requires StrictlyIncreasing(B) && IndicesBelow(B, |a| + |B|)
    ensures InsertZeros(a + b, B) == InsertZeros(a, B) + b
    decreases |B|
  {
    if |B| > 0 {
      SortedIndicesFit(B, |a| + |B|);
      var a' := InsertAt(a, 0.0, B[0]);
      assert InsertAt(a + b, 0.0, B[0]) == a' + b;
      InsertZerosPrefix(a', b, B[1..]);
    }
  }

  /** Inserting at shifted indices inside a trailing block leaves a leading block alone. */
  lemma {:induction false} InsertZerosSuffix(a: seq<real>, b: seq<real>, B: seq<int>)
    requires StrictlyIncreasing(B) && IndicesBelow(B, |b| + |B|)
    ensures StrictlyIncreasing(Shift(B, |a|)) && IndicesBelow(Shift(B, |a|), |a + b| + |B|)
    ensures InsertZeros(a + b, Shift(B, |a|)) == a + InsertZeros(b, B)
    decreases |B|
  {
    ShiftedIndices(B, |a|, |b| + |B|);
    if |B| > 0 {
      SortedIndicesFit(B, |b| + |B|);
      var b' := InsertAt(b, 0.0, B[0]);
      var C := Shift(B, |a|);
      assert InsertAt(a + b, 0.0, C[0]) == a + b';
      assert C[1..] == Shift(B[1..], |a|);
      InsertZerosSuffix(a, b', B[1..]);
      calc {
        InsertZeros(a + b, C);
        InsertZeros(InsertAt(a + b, 0.0, C[0]), C[1..]);
        InsertZeros(a + b', Shift(B[1..], |a|));
        a + InsertZeros(b', B[1..]);
        a + InsertZeros(b, B);
      }
    }
  }

  // ---------------------------------------------------------------------
  // Matrices

  /** The square matrix after removing row and column B[k] for k from |B| - 1 down to 0. */
  function RemoveRowsCols(A: Mat, B: seq<int>): (R: Mat)
    requires IsSquare(A) && StrictlyIncreasing(B) && IndicesBelow(B, |A|)
    ensures IsSquare(R) && |R| == |A| - |B|
    decreases |B|
  {
    if |B| == 0 then A
    else
      SortedIndicesFit(B, |A|);
      var R1 := RemoveRowsCols(A, B[1..]);
      RemoveRowColEntries(R1, B[0], |R1|, |R1|);
      RemoveRowCol(R1, B[0])
  }

  /** Every row of `A` with the listed entries removed. */
  function RemoveEachRow(A: Mat, B: seq<int>): (R: Mat)
    requires StrictlyIncreasing(B) && forall i :: 0 <= i < |A| ==> IndicesBelow(B, |A[i]|)
    ensures |R| == |A|
    ensures forall i :: 0 <= i < |A| ==> R[i] == RemoveIndices(A[i], B)
  {
    seq(|A|, i requires 0 <= i < |A| => RemoveIndices(A[i], B))
  }

  /** Removing whole rows keeps the common row length. */
  lemma {:induction false} RemoveIndicesRows(A: Mat, B: seq<int>, c: int)
    requires StrictlyIncreasing(B) && IndicesBelow(B, |A|)
    requires forall i :: 0 <= i < |A| ==> |A[i]| == c
    ensures forall i :: 0 <= i < |A| - |B| ==> |RemoveIndices(A, B)[i]| == c
    decreases |B|
  {
    if |B| > 0 {
      SortedIndicesFit(B, |A|);
      RemoveIndicesRows(A, B[1..], c);
      RemoveAtSkip(RemoveIndices(A, B[1..]), B[0]);
    }
  }

  /** Row i of the step of `RemoveRowsColsByRows`: removing row and column B[0] after the entries of B[1..] is removing all of B from the row. */
  lemma ByRowsEntry(X: Mat, B: seq<int>, c: nat, i: nat)
    requires |B| > 0 && StrictlyIncreasing(B) && IndicesBelow(B, c) && B[0] + |B| <= c && B[0] < |X|
    requires forall j :: 0 <= j < |X| ==> |X[j]| == c
    requires i < |X| - 1
    ensures RemoveRowCol(RemoveEachRow(X, B[1..]), B[0])[i] == RemoveIndices(RemoveAt(X, B[0])[i], B)
  {
    var k, B1 := B[0], B[1..];
    var R1 := RemoveEachRow(X, B1);
    var j := Skip(i, k);
    RemoveAtSkip(R1, k);
    RemoveAtSkip(X, k);
    assert RemoveAt(R1, k)[i] == RemoveIndices(X[j], B1);
    assert RemoveIndices(X[j], B) == RemoveAt(RemoveIndices(X[j], B1), k);
  }

  /** Removing rows and columns one index at a time is removing the listed
   *  rows and, from each remaining row, the listed entries. */
  lemma {:induction false} RemoveRowsColsByRows(A: Mat, B: seq<int>)
    requires IsSquare(A) && StrictlyIncreasing(B) && IndicesBelow(B, |A|)
    ensures forall i :: 0 <= i < |A| - |B| ==> |RemoveIndices(A, B)[i]| == |A|
    ensures RemoveRowsCols(A, B) == RemoveEachRow(RemoveIndices(A, B), B)
    decreases |B|
  {
    RemoveIndicesRows(A, B, |A|);
    if |B| > 0 {
      SortedIndicesFit(B, |A|);
      var k := B[0];
      var B1 := B[1..];
      RemoveRowsColsByRows(A, B1);
      var X := RemoveIndices(A, B1);
      var R1 := RemoveRowsCols(A, B1);
      assert R1 == RemoveEachRow(X, B1);
      var L := RemoveRowsCols(A, B);
      assert L == RemoveRowCol(R1, k);
      var R := RemoveEachRow(RemoveIndices(A, B), B);
      RemoveIndicesRows(A, B1, |A|);
      forall i | 0 <= i < |L|
        ensures L[i] == R[i]
      {
        ByRowsEntry(X, B, |A|, i);
      }
    }
  }

  /** The rectangular matrix with the rows at `rI` and the columns at `cI` removed. */
  function RemoveRowsAndColumns(A: Mat, rI: seq<int>, cI: seq<int>, c: nat): (R: Mat)
    requires IsShape(A, |A|, c) && StrictlyIncreasing(rI) && IndicesBelow(rI, |A|)
    requires StrictlyIncreasing(cI) && IndicesBelow(cI, c)
    ensures IsShape(R, |A| - |rI|, c - |cI|)
  {
    SortedCount(rI, |A|);
    SortedCount(cI, c);
    RemoveIndicesRows(A, rI, c);
    RemoveEachRow(RemoveIndices(A, rI), cI)
  }

  /** One more step of the descending walk, for a vector: removing B[n..] is removing B[n+1..] and then B[n]. */
  lemma RemoveIndicesStep<T>(s: seq<T>, B: seq<int>, n: nat)
    requires StrictlyIncreasing(B) && IndicesBelow(B, |s|) && n < |B|
    ensures B[n] < |s| - |B[n + 1..]|
    ensures RemoveIndices(s, B[n..]) == RemoveAt(RemoveIndices(s, B[n + 1..]), B[n])
  {
    SuffixSorted(B, n, |s|);
    assert B[n..][1..] == B[n + 1..];
    SortedIndicesFit(B[n..], |s|);
  }

  /** A suffix of a sorted index list below m is itself one. */
  lemma SuffixSorted(B: seq<int>, n: nat, m: int)
    requires StrictlyIncreasing(B) && IndicesBelow(B, m) && n <= |B|
    ensures StrictlyIncreasing(B[n..]) && IndicesBelow(B[n..], m)
  {
    var C := B[n..];
    forall i, j | 0 <= i < j < |C|
      ensures C[i] < C[j]
    {
      assert C[i] == B[n + i] && C[j] == B[n + j];
    }
    forall i | 0 <= i < |C|
      ensures 0 <= C[i] < m
    {
      assert C[i] == B[n + i];
    }
  }

  /** One more step of the descending walk, for a square matrix. */
  lemma RemoveRowsColsStep(A: Mat, B: seq<int>, n: nat)
    requires IsSquare(A) && StrictlyIncreasing(B) && IndicesBelow(B, |A|) && n < |B|
    ensures B[n] < |A| - |B[n + 1..]|
    ensures RemoveRowsCols(A, B[n..]) == RemoveRowCol(RemoveRowsCols(A, B[n + 1..]), B[n])
  {
    SuffixSorted(B, n, |A|);
    assert B[n..][1..] == B[n + 1..];
    SortedIndicesFit(B[n..], |A|);
  }

  // ---------------------------------------------------------------------
  // The removal loops on the Vector and Matrix classes.

  /** removeBoundaryIndices(v, B): v.remove(B[n]) for n from |B| - 1 down to 0. */
  method RemoveBoundaryIndices(v: Vector, B: seq<int>)
    requires v.Valid() && StrictlyIncreasing(B) && IndicesBelow(B, v.n)
    modifies v
    ensures v.Valid() && v.n == old(v.n) - |B|
    ensures v.Contents() == RemoveIndices(old(v.Contents()), B)
  {
    ghost var s := v.Contents();
    var n := |B|;
    while n > 0
      invariant 0 <= n <= |B| && v.Valid()
      invariant v.Contents() == RemoveIndices(s, B[n..])
      invariant fresh(v.entries) || v.entries == old(v.entries)
    {
      n := n - 1;
      SuffixSorted(B, n, |s|);
      assert B[n..][1..] == B[n + 1..];
      SortedIndicesFit(B[n..], |s|);
      v.Remove(B[n]);
    }
    assert B[0..] == B;
  }

  /** removeBoundaryIndices(A, B): A.removeRowAndCol(B[n]) for n from |B| - 1 down to 0. */
  method RemoveBoundaryRowsCols(A: Matrix, B: seq<int>)
    requires A.Valid() && A.n == A.m && StrictlyIncreasing(B) && IndicesBelow(B, A.n)
    modifies A
    ensures A.Valid() && A.n == A.m == old(A.n) - |B|
    ensures fresh(A.entries) || A.entries == old(A.entries)
    ensures A.Contents() == RemoveRowsCols(old(A.Contents()), B)
  {
    ghost var M := A.Contents();
    var n := |B|;
    while n > 0
      invariant 0 <= n <= |B| && A.Valid() && A.n == A.m
      invariant A.Contents() == RemoveRowsCols(M, B[n..])
      invariant fresh(A.entries) || A.entries == old(A.entries)
    {
      n := n - 1;
      SuffixSorted(B, n, |M|);
      assert B[n..][1..] == B[n + 1..];
      SortedIndicesFit(B[n..], |M|);
      A.RemoveRowAndCol(B[n]);
    }
    assert B[0..] == B;
  }

  /** One more step of the descending column walk: removing the entries B[n..] from every row is removing B[n+1..] and then column B[n]. */
  lemma RemoveEachRowStep(X: Mat, B: seq<int>, n: nat, c: nat)
    requires IsShape(X, |X|, c) && StrictlyIncreasing(B) && IndicesBelow(B, c) && n < |B|
    ensures StrictlyIncreasing(B[n..]) && IndicesBelow(B[n..], c)
    ensures StrictlyIncreasing(B[n + 1..]) && IndicesBelow(B[n + 1..], c)
    ensures B[n] < c - |B[n + 1..]|
    ensures IsShape(RemoveEachRow(X, B[n + 1..]), |X|, c - |B[n + 1..]|)
    ensures RemoveEachRow(X, B[n..]) == RemoveColumn(RemoveEachRow(X, B[n + 1..]), B[n])
  {
    SuffixSorted(B, n, c);
    SuffixSorted(B, n + 1, c);
    assert B[n..][1..] == B[n + 1..];
    SortedIndicesFit(B[n..], c);
    var L, R := RemoveEachRow(X, B[n..]), RemoveColumn(RemoveEachRow(X, B[n + 1..]), B[n]);
    forall i | 0 <= i < |X|
      ensures L[i] == R[i]
    {
      RemoveIndicesStep(X[i], B, n);
    }
  }

  /** A fresh buffer holding `a` without row `k`. */
  method WithoutRow(a: array2<real>, k: nat) returns (buffer: array2<real>)
    requires k < a.Length0
    ensures fresh(buffer) && buffer.Length0 == a.Length0 - 1 && buffer.Length1 == a.Length1
    ensures ToMat(buffer) == RemoveAt(ToMat(a), k)
  {
    var n, m := a.Length0, a.Length1;
    buffer := new real[n - 1, m];
    var i := 0;
    while i < n
      invariant 0 <= i <= n
      invariant forall r, c :: 0 <= r < n - 1 && 0 <= c < m && Skip(r, k) < i ==> buffer[r, c] == a[Skip(r, k), c]
    {
      if i != k {
        var row := i - (if i > k then 1 else 0);
        assert Skip(row, k) == i;
        var j := 0;
        while j < m
          invariant 0 <= j <= m
          invariant forall r, c :: 0 <= r < n - 1 && 0 <= c < m && Skip(r, k) < i ==> buffer[r, c] == a[Skip(r, k), c]
          invariant forall c :: 0 <= c < j ==> buffer[row, c] == a[i, c]
        {
          buffer[row, j] := a[i, j];
          j := j + 1;
        }
      }
      i := i + 1;
    }
    ghost var A := ToMat(a);
    RemoveAtSkip(A, k);
    MatEq(ToMat(buffer), RemoveAt(A, k), n - 1, m);
  }

  /** A fresh buffer holding `a` without column `k`. */
  method WithoutColumn(a: array2<real>, k: nat) returns (buffer: array2<real>)
    requires k < a.Length1
    ensures fresh(buffer) && buffer.Length0 == a.Length0 && buffer.Length1 == a.Length1 - 1
    ensures ToMat(buffer) == RemoveColumn(ToMat(a), k)
  {
    var n := a.Length0;
    buffer := new real[n, a.Length1 - 1];
    var i := 0;
    while i < n
      invariant 0 <= i <= n
      invariant forall r, c :: 0 <= r < i && 0 <= c < buffer.Length1 ==> buffer[r, c] == a[r, Skip(c, k)]
    {
      CopyRowWithout(a, buffer, k, i, i);
      i := i + 1;
    }
    ghost var A := ToMat(a);
    forall r | 0 <= r < n
      ensures forall c :: 0 <= c < buffer.Length1 ==> RemoveColumn(A, k)[r][c] == A[r][Skip(c, k)]
    {
      RemoveAtSkip(A[r], k);
    }
    MatEq(ToMat(buffer), RemoveColumn(A, k), n, a.Length1 - 1);
  }

  /**
   * removeBoundaryIndices(A, rI, cI) on a rectangular matrix: the rows at rI
   * and then the columns at cI are removed, each list walked from its end.
   */
  method RemoveBoundaryRowsAndColumns(A: Matrix, rI: seq<int>, cI: seq<int>)
    requires A.Valid() && StrictlyIncreasing(rI) && IndicesBelow(rI, A.n)
    requires StrictlyIncreasing(cI) && IndicesBelow(cI, A.m)
    modifies A
    ensures A.Valid() && A.n == old(A.n) - |rI| && A.m == old(A.m) - |cI|
    ensures A.Contents() == RemoveRowsAndColumns(old(A.Contents()), rI, cI, old(A.m))
  {
    ghost var M := A.Contents();
    var n := |rI|;
    while n > 0
      invariant 0 <= n <= |rI| && A.Valid() && A.m == old(A.m)
      invariant A.Contents() == RemoveIndices(M, rI[n..])
    {
      n := n - 1;
      RemoveIndicesStep(M, rI, n);
      var buffer := WithoutRow(A.entries, rI[n]);
      A.entries, A.n := buffer, A.n - 1;
    }
    assert rI[0..] == rI;
    ghost var X := A.Contents();
    ghost var c := A.m;
    n := |cI|;
    assert RemoveEachRow(X, cI[n..]) == X;
    while n > 0
      invariant 0 <= n <= |cI| && A.Valid() && A.n == |X|
      invariant StrictlyIncreasing(cI[n..]) && IndicesBelow(cI[n..], c)
      invariant A.m == c - |cI[n..]|
      invariant A.Contents() == RemoveEachRow(X, cI[n..])
    {
      n := n - 1;
      RemoveEachRowStep(X, cI, n, c);
      var buffer := WithoutColumn(A.entries, cI[n]);
      A.entries, A.m := buffer, A.m - 1;
    }
    assert cI[0..] == cI;
  }

  /** One more step of the ascending walk: inserting at B[n..] is inserting at B[n] and then at B[n+1..]. */
  lemma InsertZerosStep(c: seq<real>, B: seq<int>, n: nat)
    requires StrictlyIncreasing(B) && n < |B| && IndicesBelow(B[n..], |c| + |B| - n)
    ensures B[n] <= |c| && IndicesBelow(B[n + 1..], |c| + 1 + |B| - (n + 1))
    ensures InsertZeros(c, B[n..]) == InsertZeros(InsertAt(c, 0.0, B[n]), B[n + 1..])
  {
    var C := B[n..];
    forall i, j | 0 <= i < j < |C|
      ensures C[i] < C[j]
    {
      assert C[i] == B[n + i] && C[j] == B[n + j];
    }
    assert C[1..] == B[n + 1..] && C[0] == B[n];
    SortedIndicesFit(C, |c| + |B| - n);
  }

  /** The re-insertion loop: v.insert(0, B[n]) for n from 0 up to |B| - 1. */
  method InsertBoundaryZeros(v: Vector, B: seq<int>)
    requires v.Valid() && StrictlyIncreasing(B) && IndicesBelow(B, v.n + |B|)
    modifies v
    ensures v.Valid() && v.n == old(v.n) + |B|
    ensures fresh(v.entries) || v.entries == old(v.entries)
    ensures v.Contents() == InsertZeros(old(v.Contents()), B)
  {
    ghost var target := InsertZeros(v.Contents(), B);
    var n := 0;
    while n < |B|
      invariant 0 <= n <= |B| && v.Valid() && v.n == old(v.n) + n
      invariant IndicesBelow(B[n..], v.n + |B| - n)
      invariant InsertZeros(v.Contents(), B[n..]) == target
      invariant fresh(v.entries) || v.entries == old(v.entries)
    {
      InsertZerosStep(v.Contents(), B, n);
      v.Insert(0.0, B[n]);
      n := n + 1;
    }
  }
}
