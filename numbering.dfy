/**
 * Index arithmetic shared by the numberings of the meshes and spaces: blocks
 * of p consecutive indices, as in "element e owns e p .. e p + p" and
 * "grid node (r, c) is r (nx + 1) + c".
 */
module Numbering {

  /** Whole blocks of p are ordered as their counts are. */
  lemma BlockOrder(a: nat, b: nat, p: nat)
    requires a < b && p > 0
    ensures a * p + p <= b * p
  {
    var c := b - a - 1;
    assert b * p == a * p + p + c * p;
  }

  /** e p + i with i < p is divided by p with quotient e and remainder i. */
  lemma BlockDivMod(p: nat, e: nat, i: nat)
    requires i < p
    ensures (e * p + i) / p == e && (e * p + i) % p == i
  {
    var I := e * p + i;
    var q, r := I / p, I % p;
    assert q * p + r == I;
    if q > e {
      BlockOrder(e, q, p);
      assert false;
    }
    if q < e {
      BlockOrder(q, e, p);
      assert false;
    }
  }

  /** An index at most n p lies in one of the n blocks, or is the very last one. */
  lemma BlockRange(n: nat, p: nat, I: nat)
    requires p > 0 && I <= n * p
    ensures I / p <= n && (I % p != 0 ==> I / p < n)
  {
    var q, r := I / p, I % p;
    assert q * p + r == I;
    if q > n {
      BlockOrder(n, q, p);
      assert false;
    }
  }

  /** An index below n p lies in one of the n blocks. */
  lemma BlockIndex(n: nat, p: nat, I: nat)
    requires p > 0 && I < n * p
    ensures I / p < n && I % p < p
  {
    var q, r := I / p, I % p;
    assert q * p + r == I;
    if q >= n {
      if q > n {
        BlockOrder(n, q, p);
      }
      assert false;
    }
  }

  /**
   * k blocks of w, that is k w, as repeated addition. Numbering that only
   * steps from one block to the next then stays linear, and BlocksProduct
   * brings in the product where a proof needs it.
   */
  function Blocks(k: int, w: int): (r: int)
    ensures w >= 0 ==> r >= 0
    decreases k
  {
    if k <= 0 then 0 else Blocks(k - 1, w) + w
  }

  lemma {:induction false} BlocksProduct(k: nat, w: int)
    ensures Blocks(k, w) == k * w
  {
    if k > 0 {
      BlocksProduct(k - 1, w);
      assert k * w == (k - 1) * w + w;
    }
  }

  /** Whole blocks are ordered as their counts are. */
  lemma {:induction false} BlocksOrder(a: nat, b: nat, w: nat)
    requires a < b
    ensures Blocks(a, w) + w <= Blocks(b, w)
  {
    if a + 1 < b {
      BlocksOrder(a, b - 1, w);
    }
  }

  /** The block of width w that the index I falls in, counting from 0. */
  function BlockOf(I: int, w: int): int
    requires w > 0
    decreases I
  {
    if I < w then 0 else 1 + BlockOf(I - w, w)
  }

  /** Entry i of block k lies in block k. */
  lemma {:induction false} BlockOfBlocks(k: nat, w: int, i: int)
    requires 0 <= i < w
    ensures BlockOf(Blocks(k, w) + i, w) == k
  {
    if k > 0 {
      BlockOfBlocks(k - 1, w, i);
    }
  }

  /** An index below k whole blocks lies in one of them, at its place inside it. */
  lemma {:induction false} BlockOfBound(I: int, k: int, w: int)
    requires w > 0 && 0 <= I < Blocks(k, w)
    ensures 0 <= BlockOf(I, w) < k
    ensures Blocks(BlockOf(I, w), w) <= I < Blocks(BlockOf(I, w), w) + w
    decreases I
  {
    if I >= w {
      BlockOfBound(I - w, k - 1, w);
    }
  }
}
