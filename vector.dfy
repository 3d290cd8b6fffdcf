/**
 * Dense vectors of reals (LinearAlgebra/Vector.cpp): a length and a heap
 * buffer, with removal and insertion of one entry that rebuild the buffer.
 * The value-level meaning of removal and insertion is given by RemoveAt and
 * InsertAt, which the elimination of constrained degrees of freedom reuses.
 */
module Vectors {

  /** `s` without its entry at `k`; later entries move down by one place. */
  function RemoveAt<T>(s: seq<T>, k: nat): (r: seq<T>)
    requires k < |s|
    ensures |r| == |s| - 1
    ensures forall i :: 0 <= i < k ==> r[i] == s[i]
    ensures forall i :: k < i < |s| ==> r[i - 1] == s[i]
  {
    s[..k] + s[k + 1..]
  }

  /** Entry `i` of the shorter sequence is entry `Skip(i, k)` of the longer one. */
  lemma RemoveAtSkip<T>(s: seq<T>, k: nat)
    requires k < |s|
    ensures forall i :: 0 <= i < |s| - 1 ==> RemoveAt(s, k)[i] == s[Skip(i, k)]
  {
  }

  /** The index in the longer sequence of entry `i` after the entry at `k` is removed. */
  function Skip(i: nat, k: nat): nat
  {
    if i >= k then i + 1 else i
  }

  /** `s` with `a` placed at `k`; entries from `k` on move up by one place. */
  function InsertAt<T>(s: seq<T>, a: T, k: nat): (r: seq<T>)
    requires k <= |s|
    ensures |r| == |s| + 1 && r[k] == a
    ensures forall i :: 0 <= i < k ==> r[i] == s[i]
    ensures forall i :: k <= i < |s| ==> r[i + 1] == s[i]
  {
    s[..k] + [a] + s[k..]
  }

  /** A sequence that agrees with `InsertAt(s, a, k)` entry by entry is that sequence. */
  lemma InsertAtEntries<T>(b: seq<T>, s: seq<T>, a: T, k: nat)
    requires k <= |s| && |b| == |s| + 1 && b[k] == a
    requires forall i :: 0 <= i < k ==> b[i] == s[i]
    requires forall i :: k <= i < |s| ==> b[i + 1] == s[i]
    ensures b == InsertAt(s, a, k)
  {
    var r := InsertAt(s, a, k);
    forall i | 0 <= i < |b|
      ensures b[i] == r[i]
    {
      if k < i {
        assert b[(i - 1) + 1] == s[i - 1];
      }
    }
  }

  /** Removing what was just inserted gives the vector back. */
  lemma RemoveInserted<T>(s: seq<T>, a: T, k: nat)
    requires k <= |s|
    ensures RemoveAt(InsertAt(s, a, k), k) == s
  {
    var r := RemoveAt(InsertAt(s, a, k), k);
    forall i | 0 <= i < |s|
      ensures r[i] == s[i]
    {
      if i >= k {
        assert r[i] == InsertAt(s, a, k)[i + 1];
      }
    }
  }

  /** Re-inserting a removed entry at its old place gives the vector back. */
  lemma InsertRemoved<T>(s: seq<T>, k: nat)
    requires k < |s|
    ensures InsertAt(RemoveAt(s, k), s[k], k) == s
  {
    var r := InsertAt(RemoveAt(s, k), s[k], k);
    forall i | 0 <= i < |s|
      ensures r[i] == s[i]
    {
      if i > k {
        assert r[i] == RemoveAt(s, k)[i - 1];
      }
    }
  }

  function Zeros(n: nat): (r: seq<real>)
    ensures |r| == n
    ensures forall i :: 0 <= i < n ==> r[i] == 0.0
  {
    seq(n, _ => 0.0)
  }

  /** Entrywise sum of two vectors of one length. */
  function Add(a: seq<real>, b: seq<real>): (r: seq<real>)
    requires |a| == |b|
    ensures |r| == |a|
    ensures forall i :: 0 <= i < |a| ==> r[i] == a[i] + b[i]
  {
    seq(|a|, i requires 0 <= i < |a| => a[i] + b[i])
  }

  /** Entrywise negation. */
  function Neg(a: seq<real>): (r: seq<real>)
    ensures |r| == |a|
    ensures forall i :: 0 <= i < |a| ==> r[i] == -a[i]
  {
    seq(|a|, i requires 0 <= i < |a| => -a[i])
  }

  /** Addition is commutative, so the order in which load vectors are summed does not matter. */
  lemma AddCommutes(a: seq<real>, b: seq<real>)
    requires |a| == |b|
    ensures Add(a, b) == Add(b, a)
  {
  }

  /** The sum of the entries, accumulated from the front. */
  function Sum(s: seq<real>): real
  {
    if |s| == 0 then 0.0 else Sum(s[..|s| - 1]) + s[|s| - 1]
  }

  /** The sum of a prefix grows by the next entry: the step of an accumulating loop. */
  lemma SumStep(s: seq<real>, j: nat)
    requires j < |s|
    ensures Sum(s[..j + 1]) == Sum(s[..j]) + s[j]
  {
    assert s[..j + 1][..j] == s[..j];
  }

  /** The sum of a[i] * b[i] over i < k, added in order. */
  function DotUpTo(a: seq<real>, b: seq<real>, k: nat): real
    requires k <= |a| && k <= |b|
  {
    if k == 0 then 0.0 else DotUpTo(a, b, k - 1) + a[k - 1] * b[k - 1]
  }

  /** The dot product of two vectors of one length. */
  function Dot(a: seq<real>, b: seq<real>): real
    requires |a| == |b|
  {
    DotUpTo(a, b, |a|)
  }

  /** One more term of the dot product, with the term's factors given by name. */
  lemma DotStep(a: seq<real>, b: seq<real>, j: nat, u: real, phi: real)
    requires j < |a| && j < |b| && u == a[j] && phi == b[j]
    ensures DotUpTo(a, b, j + 1) == DotUpTo(a, b, j) + u * phi
  {
  }

  /** When b vanishes away from position m, the dot product picks out a[m] b[m]. */
  lemma {:induction false} DotSingle(a: seq<real>, b: seq<real>, m: nat, k: nat)
    requires |a| == |b| && m < |a| && k <= |a|
    requires b[m] == 1.0 && forall i :: 0 <= i < |b| && i != m ==> b[i] == 0.0
    ensures DotUpTo(a, b, k) == if m < k then a[m] else 0.0
  {
    if k > 0 {
      DotSingle(a, b, m, k - 1);
    }
  }

  /** A dot product whose every term has a zero factor is zero. */
  lemma {:induction false} DotZero(a: seq<real>, b: seq<real>, k: nat)
    requires k <= |a| && k <= |b| && forall i :: 0 <= i < k ==> a[i] == 0.0 || b[i] == 0.0
    ensures DotUpTo(a, b, k) == 0.0
  {
    if k > 0 {
      DotZero(a, b, k - 1);
    }
  }

  /** Scaling every entry by `c` scales the sum by `c`. */
  lemma {:induction false} SumScaled(s: seq<real>, t: seq<real>, c: real)
    requires |s| == |t|
    requires forall i :: 0 <= i < |s| ==> t[i] == c * s[i]
    ensures Sum(t) == c * Sum(s)
  {
    if |s| > 0 {
      SumScaled(s[..|s| - 1], t[..|t| - 1], c);
    }
  }

  /** A vector of `n` reals stored in a buffer of exactly `n` entries. */
  class Vector {
    var n: nat
    var entries: array<real>

    ghost predicate Valid()
      reads this
    {
      entries.Length == n
    }

    /** The entries as a value. */
    ghost function Contents(): seq<real>
      reads this, entries
    {
      entries[..]
    }

    /** A vector of `size` zeros. */
    constructor (size: nat)
      ensures Valid() && fresh(entries) && n == size
      ensures Contents() == Zeros(size)
    {
      n := size;
      var buffer := new real[size];
      var i := 0;
      while i < size
        invariant 0 <= i <= size
        invariant forall k :: 0 <= k < i ==> buffer[k] == 0.0
      {
        buffer[i] := 0.0;
        i := i + 1;
      }
      entries := buffer;
    }

    /** The bounds-checked read `v[index]`. */
    method Get(index: int) returns (x: real)
      requires Valid() && 0 <= index < n
      ensures x == Contents()[index]
    {
      x := entries[index];
    }

    /** The bounds-checked write `v[index] = x`. */
    method Set(index: int, x: real)
      requires Valid() && 0 <= index < n
      modifies entries
      ensures Valid()
      ensures Contents() == old(Contents())[index := x]
    {
      entries[index] := x;
    }

    /** `v[index] += x`, the scatter step of assembly. */
    method AddTo(index: int, x: real)
      requires Valid() && 0 <= index < n
      modifies entries
      ensures Valid()
      ensures Contents() == old(Contents())[index := old(Contents())[index] + x]
    {
      entries[index] := entries[index] + x;
    }

    /** `v + w` for vectors of equal length, as a new vector. */
    method Plus(other: Vector) returns (sum: Vector)
      requires Valid() && other.Valid() && n == other.n
      ensures fresh(sum) && fresh(sum.entries) && sum.Valid()
      ensures sum.Contents() == Add(Contents(), other.Contents())
    {
      sum := new Vector(n);
      var i := 0;
      while i < n
        invariant 0 <= i <= n
        invariant sum.Valid() && sum.n == n && fresh(sum.entries)
        invariant forall k :: 0 <= k < i ==> sum.entries[k] == entries[k] + other.entries[k]
      {
        sum.entries[i] := entries[i] + other.entries[i];
        i := i + 1;
      }
    }

    /** `v.remove(index)`: a fresh buffer one shorter, without entry `index`. */
    method Remove(index: int)
      requires Valid() && 0 <= index < n
      modifies this
      ensures Valid() && fresh(entries)
      ensures Contents() == RemoveAt(old(Contents()), index)
    {
      var buffer := new real[n - 1];
      var i := 0;
      while i < n
        invariant 0 <= i <= n && Valid() && unchanged(this)
        invariant forall k :: 0 <= k < n - 1 && Skip(k, index) < i ==> buffer[k] == entries[Skip(k, index)]
      {
        if i != index {
          buffer[i - (if i > index then 1 else 0)] := entries[i];
        }
        i := i + 1;
      }
      RemoveAtSkip(entries[..], index);
      assert buffer[..] == RemoveAt(entries[..], index);
      entries := buffer;
      n := n - 1;
    }

    /** `v.insert(a, index)`: a fresh buffer one longer, with `a` at `index`. */
    method Insert(a: real, index: int)
      requires Valid() && 0 <= index <= n
      modifies this
      ensures Valid() && fresh(entries)
      ensures Contents() == InsertAt(old(Contents()), a, index)
    {
      var buffer := new real[n + 1];
      var i := 0;
      while i < n
        invariant 0 <= i <= n && Valid() && unchanged(this)
        invariant forall k :: 0 <= k < i && k < index ==> buffer[k] == entries[k]
        invariant forall k :: index <= k < i ==> buffer[k + 1] == entries[k]
        invariant index < i ==> buffer[index] == a
      {
        if i == index {
          buffer[i] := a;
        }
        buffer[i + (if i >= index then 1 else 0)] := entries[i];
        i := i + 1;
      }
      if index == n {
        buffer[n] := a;
      }
      InsertAtEntries(buffer[..], entries[..], a, index);
      entries := buffer;
      n := n + 1;
    }
  }
}
