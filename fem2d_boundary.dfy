/**
 * The constrained DOFs of the two-dimensional space (Meshing/2D/FEM2D.h):
 * the list the constructor collects while it numbers vertices and edge
 * DOFs, and the bubble sort it runs on that list before returning.
 */
module ConstrainedDofs2D {
  import opened Boundary
  import opened TriangularMesh
  import opened Elimination
  import opened FiniteElements2D

  /** DOF d's tag is one the solvers hold fixed. */
  predicate ConstrainedDof(m: Mesh2D, p: int, d: int)
    requires m.Valid() && p > 0 && 0 <= d < NumDofs(m, p)
  {
    DofTag(m, p, d).IsConstrained()
  }

  /** The DOFs below n whose tag is constrained, in increasing order. */
  function ConstrainedBelow(m: Mesh2D, p: int, n: int): seq<int>
    requires m.Valid() && p > 0 && 0 <= n <= NumDofs(m, p)
    decreases n
  {
    if n == 0 then []
    else ConstrainedBelow(m, p, n - 1) + (if ConstrainedDof(m, p, n - 1) then [n - 1] else [])
  }

  /** Every entry of the list is a DOF below n. */
  lemma {:induction false} ConstrainedBelowBounds(m: Mesh2D, p: int, n: int)
    requires m.Valid() && p > 0 && 0 <= n <= NumDofs(m, p)
    ensures forall k :: 0 <= k < |ConstrainedBelow(m, p, n)| ==> 0 <= ConstrainedBelow(m, p, n)[k] < n
  {
    if n > 0 {
      ConstrainedBelowBounds(m, p, n - 1);
    }
  }

  /** The list is in increasing order without repeats. */
  lemma {:induction false} ConstrainedBelowIncreasing(m: Mesh2D, p: int, n: int)
    requires m.Valid() && p > 0 && 0 <= n <= NumDofs(m, p)
    ensures StrictlyIncreasing(ConstrainedBelow(m, p, n))
  {
    if n > 0 {
      ConstrainedBelowIncreasing(m, p, n - 1);
      ConstrainedBelowBounds(m, p, n - 1);
    }
  }

  /** The list holds exactly the constrained DOFs below n. */
  lemma {:induction false} ConstrainedBelowMembers(m: Mesh2D, p: int, n: int)
    requires m.Valid() && p > 0 && 0 <= n <= NumDofs(m, p)
    ensures forall d :: 0 <= d < n ==> (d in ConstrainedBelow(m, p, n) <==> ConstrainedDof(m, p, d))
  {
    if n > 0 {
      ConstrainedBelowMembers(m, p, n - 1);
      ConstrainedBelowBounds(m, p, n - 1);
      var B, C := ConstrainedBelow(m, p, n - 1), ConstrainedBelow(m, p, n);
      var last := if ConstrainedDof(m, p, n - 1) then [n - 1] else [];
      assert C == B + last;
      forall d | 0 <= d < n
        ensures d in C <==> ConstrainedDof(m, p, d)
      {
        assert d in C <==> d in B || d in last;
        if d < n - 1 {
          assert d !in last;
        } else {
          assert d !in B;
        }
      }
    }
  }

  /** No interior DOF is constrained, so the list stops growing at the first interior DOF. */
  lemma {:induction false} ConstrainedBelowInterior(m: Mesh2D, p: int, n: int)
    requires m.Valid() && p > 0 && InteriorStart(m, p) <= n <= NumDofs(m, p)
    ensures ConstrainedBelow(m, p, n) == ConstrainedBelow(m, p, InteriorStart(m, p))
    decreases n
  {
    if n > InteriorStart(m, p) {
      ConstrainedBelowInterior(m, p, n - 1);
    }
  }

  // ---------------------------------------------------------------------
  // The bubble sort
  // ---------------------------------------------------------------------

  /** No neighbouring pair is out of order: the test each pass of the sort makes. */
  predicate Sorted(s: seq<int>)
  {
    forall j :: 0 <= j < |s| - 1 ==> s[j] <= s[j + 1]
  }

  /** Each of the last q entries is at least every entry before it: what q passes have settled. */
  predicate Settled(s: seq<int>, q: nat)
  {
    forall l, j :: |s| - q <= l < |s| && 0 <= j < l ==> s[j] <= s[l]
  }

  /** Once all but the first entry are settled, the list is sorted. */
  lemma SettledSorted(s: seq<int>, q: nat)
    requires Settled(s, q) && q + 1 >= |s|
    ensures Sorted(s)
  {
    forall j | 0 <= j < |s| - 1
      ensures s[j] <= s[j + 1]
    {
      assert |s| - q <= j + 1;
    }
  }

  /** A list with no repeats in increasing order passes the test. */
  lemma IncreasingIsSorted(s: seq<int>)
    requires StrictlyIncreasing(s)
    ensures Sorted(s)
  {
    forall j | 0 <= j < |s| - 1
      ensures s[j] <= s[j + 1]
    {
      assert s[j] < s[j + 1];
    }
  }

  /** Neighbourly order is order: every earlier entry is at most every later one. */
  lemma {:induction false} SortedOrdered(s: seq<int>, i: nat, j: nat)
    requires Sorted(s) && i <= j < |s|
    ensures s[i] <= s[j]
    decreases j - i
  {
    if i < j {
      SortedOrdered(s, i + 1, j);
    }
  }

  /** Entries of a reordered prefix stay below any bound on the original prefix. */
  lemma PrefixBound(s: seq<int>, t: seq<int>, k: nat, v: int)
    requires k <= |s| && k <= |t| && multiset(t[..k]) == multiset(s[..k])
    requires forall j :: 0 <= j < k ==> s[j] <= v
    ensures forall j :: 0 <= j < k ==> t[j] <= v
  {
    forall j | 0 <= j < k
      ensures t[j] <= v
    {
      assert t[..k][j] in multiset(s[..k]);
    }
  }

  /** Swapping neighbours i, i + 1 keeps the multiset of the prefix up to i + 1 in step with the original. */
  lemma SwapPrefix(s: seq<int>, t: seq<int>, i: nat)
    requires i + 1 < |s| == |t| && multiset(t[..i + 1]) == multiset(s[..i + 1]) && t[i + 1] == s[i + 1]
    ensures multiset(t[..i + 2]) == multiset(s[..i + 2])
    ensures multiset(t[i := t[i + 1]][i + 1 := t[i]][..i + 2]) == multiset(s[..i + 2])
  {
    assert t[..i + 2] == t[..i + 1] + [t[i + 1]];
    assert s[..i + 2] == s[..i + 1] + [s[i + 1]];
    var u := t[i := t[i + 1]][i + 1 := t[i]];
    assert u[..i + 2] == t[..i] + [t[i + 1], t[i]];
    assert t[..i + 1] == t[..i] + [t[i]];
  }

  /** What holds after the first i neighbour tests of a pass over s that has reached t. */
  ghost predicate PassInvariant(s: seq<int>, t: seq<int>, q: nat, i: nat, sorted: bool)
  {
    && |t| == |s| && multiset(t) == multiset(s)
    && (if |s| == 0 then i == 0 else i < |s|)
    && (|s| > 0 ==> multiset(t[..i + 1]) == multiset(s[..i + 1]))
    && (forall j :: i < j < |s| ==> t[j] == s[j])
    && (|s| > 0 ==> forall j :: 0 <= j < i ==> t[j] <= t[i])
    && (forall l, j :: |s| - q - 1 <= l < i && 0 <= j < l ==> t[j] <= t[l])
    && (sorted <==> forall j :: 0 <= j < i ==> s[j] <= s[j + 1])
    && (sorted ==> t == s)
  }

  /** In the settled tail no test fails: the entry carried to i is at most the settled entry after it. */
  lemma CarriedBelowSettled(s: seq<int>, t: seq<int>, q: nat, i: nat, sorted: bool)
    requires q <= |s| && Settled(s, q) && i + 1 < |s| && i + 1 >= |s| - q
    requires PassInvariant(s, t, q, i, sorted)
    ensures t[i] <= t[i + 1]
  {
    PrefixBound(s, t, i + 1, s[i + 1]);
  }

  /** Neighbours i, i + 1 out of order: swapping them keeps the pass invariant, now unsorted. */
  lemma SwapStep(s: seq<int>, t: seq<int>, q: nat, i: nat, sorted: bool)
    requires q <= |s| && Settled(s, q) && i + 1 < |s|
    requires PassInvariant(s, t, q, i, sorted) && t[i + 1] < t[i]
    ensures PassInvariant(s, t[i := t[i + 1]][i + 1 := t[i]], q, i + 1, false)
  {
    SwapPrefix(s, t, i);
    if i + 1 >= |s| - q {
      CarriedBelowSettled(s, t, q, i, sorted);
      assert false;
    }
    var u := t[i := t[i + 1]][i + 1 := t[i]];
    assert multiset(u) == multiset(t);
    assert forall j :: 0 <= j < i + 1 ==> u[j] <= u[i + 1];
    if sorted {
      assert s[i + 1] < s[i];
    }
  }

  /** Neighbours i, i + 1 in order: the pass moves on with the list as it is. */
  lemma KeepStep(s: seq<int>, t: seq<int>, q: nat, i: nat, sorted: bool)
    requires q <= |s| && Settled(s, q) && i + 1 < |s|
    requires PassInvariant(s, t, q, i, sorted) && t[i] <= t[i + 1]
    ensures PassInvariant(s, t, q, i + 1, sorted)
  {
    SwapPrefix(s, t, i);
  }

  /** At the end of the pass the carried maximum has reached the last place, which is now settled too. */
  lemma PassDone(s: seq<int>, t: seq<int>, q: nat, i: nat, sorted: bool)
    requires q <= |s| && PassInvariant(s, t, q, i, sorted) && i + 1 >= |s|
    ensures |t| == |s| && multiset(t) == multiset(s)
    ensures q < |s| ==> Settled(t, q + 1)
    ensures sorted <==> Sorted(s)
    ensures sorted ==> t == s
  {
  }

  /**
   * One pass of the `while (!sorted)` loop: neighbours out of order are
   * swapped from left to right. The pass reports sorted exactly when it
   * swapped nothing, which is when the list was sorted already, and it
   * settles one more entry at the end.
   */
  method BubblePass(s: seq<int>, ghost q: nat) returns (t: seq<int>, sorted: bool)
    requires q <= |s| && Settled(s, q)
    ensures |t| == |s| && multiset(t) == multiset(s)
    ensures q < |s| ==> Settled(t, q + 1)
    ensures sorted <==> Sorted(s)
    ensures sorted ==> t == s
  {
    t, sorted := s, true;
    var i := 0;
    while i + 1 < |t|
      invariant PassInvariant(s, t, q, i, sorted)
    {
      if t[i + 1] < t[i] {
        SwapStep(s, t, q, i, sorted);
        sorted := false;
        t := t[i := t[i + 1]][i + 1 := t[i]];
      } else {
        KeepStep(s, t, q, i, sorted);
      }
      i := i + 1;
    }
    PassDone(s, t, q, i, sorted);
  }

  /**
   * The `while (!sorted)` loop of the constructor: passes until one swaps
   * nothing. The result is sorted and a rearrangement of the input, and a
   * list that is sorted already comes back unchanged.
   */
  method SortIndices(B: seq<int>) returns (b: seq<int>)
    ensures multiset(b) == multiset(B) && Sorted(b)
    ensures Sorted(B) ==> b == B
  {
    b := B;
    var sorted := false;
    ghost var q: nat := 0;
    while !sorted
      invariant |b| == |B| && multiset(b) == multiset(B) && q <= |b| && Settled(b, q)
      invariant sorted ==> Sorted(b)
      invariant Sorted(B) ==> b == B
      decreases if sorted then 0 else 1, |b| - q
    {
      var next, passSorted := BubblePass(b, q);
      if !passSorted {
        if q + 1 >= |b| {
          SettledSorted(b, q);
        }
        q := q + 1;
      }
      b, sorted := next, passSorted;
    }
  }

  /** The sort keeps the constructor's list as it is: the list is already in increasing order. */
  lemma SortKeepsConstrained(m: Mesh2D, p: int, n: int)
    requires m.Valid() && p > 0 && 0 <= n <= NumDofs(m, p)
    ensures Sorted(ConstrainedBelow(m, p, n))
  {
    ConstrainedBelowIncreasing(m, p, n);
    IncreasingIsSorted(ConstrainedBelow(m, p, n));
  }
}
