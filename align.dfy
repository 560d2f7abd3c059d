/**
 Rounding a packet length up to the cipher's block size (rxtx.go, `blkAlignUp`).
 The source computes `(n + blkMask) &^ blkMask` with `blkMask = B - 1` for a
 power-of-two block size B; clearing the low bits of n + B - 1 is rounding it
 down to a multiple of B, which is what AlignUp writes with division.
 */
module Align {

  predicate IsPowerOfTwo(b: nat)
    decreases b
  {
    if b <= 1 then b == 1 else b % 2 == 0 && IsPowerOfTwo(b / 2)
  }

  lemma {:induction false} PowerOfTwoPositive(b: nat)
    requires IsPowerOfTwo(b)
    ensures b >= 1
  {
    if b > 1 {
      PowerOfTwoPositive(b / 2);
    }
  }

  lemma MulNonnegative(a: int, b: int)
    requires a >= 0 && b >= 0
    ensures a * b >= 0
  {
  }

  /** x == q * d + r with 0 <= r < d fixes x / d and x % d. */
  lemma DivModUnique(x: int, d: int, q: int, r: int)
    requires d > 0 && 0 <= r < d && x == q * d + r
    ensures x / d == q && x % d == r
  {
    var q', r' := x / d, x % d;
    assert x == q' * d + r' && 0 <= r' < d;
    if q > q' {
      MulNonnegative(q - q' - 1, d);
    } else if q < q' {
      MulNonnegative(q' - q - 1, d);
    }
  }

  /** `blkAlignUp` (rxtx.go:58-60) for block size blk. */
  function AlignUp(n: int, blk: nat): int
    requires IsPowerOfTwo(blk)
  {
    PowerOfTwoPositive(blk);
    (n + blk - 1) / blk * blk
  }

  /** The aligned length is a multiple of blk and exceeds n by less than one block. */
  lemma AlignUpSpec(n: int, blk: nat)
    requires IsPowerOfTwo(blk)
    ensures AlignUp(n, blk) % blk == 0 && n <= AlignUp(n, blk) < n + blk
  {
    PowerOfTwoPositive(blk);
    var q := (n + blk - 1) / blk;
    assert n + blk - 1 == q * blk + (n + blk - 1) % blk;
    DivModUnique(q * blk, blk, q, 0);
  }

  /** Two multiples of blk that lie less than blk apart are equal. */
  lemma MultiplesApart(a: int, c: int, blk: nat)
    requires blk > 0 && a % blk == 0 && c % blk == 0
    requires a <= c < a + blk
    ensures a == c
  {
    var qa, qc := a / blk, c / blk;
    assert a == qa * blk && c == qc * blk;
    if qa < qc {
      MulNonnegative(qc - qa - 1, blk);
    } else if qc < qa {
      MulNonnegative(qa - qc - 1, blk);
    }
  }

  /** AlignUp gives the least multiple of blk that is at least n. */
  lemma AlignUpIsLeast(n: int, blk: nat, c: int)
    requires IsPowerOfTwo(blk)
    requires c % blk == 0 && n <= c
    ensures AlignUp(n, blk) <= c
  {
    PowerOfTwoPositive(blk);
    AlignUpSpec(n, blk);
    var m := AlignUp(n, blk);
    if c < m {
      MultiplesApart(c, m, blk);
    }
  }

  /** An aligned length stays as it is: aligning twice is aligning once. */
  lemma AlignUpIdempotent(n: int, blk: nat)
    requires IsPowerOfTwo(blk)
    ensures AlignUp(AlignUp(n, blk), blk) == AlignUp(n, blk)
  {
    PowerOfTwoPositive(blk);
    var m := AlignUp(n, blk);
    AlignUpSpec(n, blk);
    AlignUpSpec(m, blk);
    MultiplesApart(m, AlignUp(m, blk), blk);
  }

  /** Aligning is monotonic in the length. */
  lemma AlignUpMonotonic(n: int, k: int, blk: nat)
    requires IsPowerOfTwo(blk) && n <= k
    ensures AlignUp(n, blk) <= AlignUp(k, blk)
  {
    AlignUpSpec(k, blk);
    AlignUpIsLeast(n, blk, AlignUp(k, blk));
  }
}
