/**
 Naturally aligned power-of-two blocks of page numbers, and the buddy of a block: the
 number with one bit flipped. Everything is defined bit by bit.
 */
module Blocks {

  /** 1 << k */
  function Pow2(k: nat): (r: nat)
    ensures r >= 1
  {
    if k == 0 then 1 else 2 * Pow2(k - 1)
  }

  /** n << k */
  function Shift(n: nat, k: nat): nat {
    if k == 0 then n else 2 * Shift(n, k - 1)
  }

  /** The low k bits of p are zero. */
  predicate Aligned(p: nat, k: nat) {
    k == 0 || (p % 2 == 0 && Aligned(p / 2, k - 1))
  }

  /** p with the low k bits cleared. */
  function Floor(p: nat, k: nat): (r: nat)
    ensures r <= p
  {
    if k == 0 then p else 2 * Floor(p / 2, k - 1)
  }

  /** p ^ (1 << k) */
  function FlipBit(p: nat, k: nat): nat {
    if k == 0 then (if p % 2 == 0 then p + 1 else p - 1)
    else 2 * FlipBit(p / 2, k - 1) + p % 2
  }

  /** The block of order k + 1 that holds an aligned block of order k. */
  function Parent(p: nat, k: nat): (r: nat)
    ensures r <= p
  {
    Floor(p, k + 1)
  }

  lemma {:induction false} Pow2Monotone(j: nat, k: nat)
    requires j <= k
    ensures Pow2(j) <= Pow2(k)
    ensures j < k ==> 2 * Pow2(j) <= Pow2(k)
  {
    if j < k { Pow2Monotone(j, k - 1); }
  }

  lemma {:induction false} ShiftAdd(a: nat, b: nat, k: nat)
    ensures Shift(a + b, k) == Shift(a, k) + Shift(b, k)
    ensures Shift(1, k) == Pow2(k)
  {
    if k > 0 { ShiftAdd(a, b, k - 1); }
  }

  lemma {:induction false} AlignedWeaken(p: nat, j: nat, k: nat)
    requires j <= k && Aligned(p, k)
    ensures Aligned(p, j)
  {
    if j > 0 { AlignedWeaken(p / 2, j - 1, k - 1); }
  }

  lemma {:induction false} FloorAligned(p: nat, k: nat)
    ensures Aligned(Floor(p, k), k) && Floor(p, k) <= p < Floor(p, k) + Pow2(k)
  {
    if k > 0 { FloorAligned(p / 2, k - 1); }
  }

  /** Multiples of the same power that are less than it apart are equal. */
  lemma {:induction false} AlignedApart(a: nat, b: nat, k: nat)
    requires Aligned(a, k) && Aligned(b, k) && a < b
    ensures a + Pow2(k) <= b
  {
    if k > 0 { AlignedApart(a / 2, b / 2, k - 1); }
  }

  lemma {:induction false} UpperAligned(b: nat, k: nat)
    requires Aligned(b, k)
    ensures Aligned(b + Pow2(k), k)
  {
    if k > 0 {
      UpperAligned(b / 2, k - 1);
      assert (b + Pow2(k)) / 2 == b / 2 + Pow2(k - 1);
    }
  }

  lemma {:induction false} FloorUnique(a: nat, k: nat, b: nat)
    requires Aligned(a, k) && a <= b < a + Pow2(k)
    ensures Floor(b, k) == a
  {
    FloorAligned(b, k);
    var f := Floor(b, k);
    if f < a { AlignedApart(f, a, k); }
    if a < f { AlignedApart(a, f, k); }
  }

  /** A block that starts inside a block of at least its order lies inside it. */
  lemma {:induction false} Nested(a: nat, j: nat, b: nat, k: nat)
    requires j <= k && Aligned(a, j) && Aligned(b, k) && b <= a < b + Pow2(k)
    ensures a + Pow2(j) <= b + Pow2(k)
  {
    UpperAligned(b, k);
    AlignedWeaken(b + Pow2(k), j, k);
    AlignedApart(a, b + Pow2(k), j);
  }

  lemma {:induction false} ParentAligned(p: nat, k: nat)
    ensures Aligned(Parent(p, k), k + 1) && Parent(p, k) <= p < Parent(p, k) + Pow2(k + 1)
  {
    FloorAligned(p, k + 1);
  }

  /** The block is the lower or the upper half of its parent. */
  lemma {:induction false} ParentHalves(p: nat, k: nat)
    requires Aligned(p, k)
    ensures p == if Aligned(p, k + 1) then Parent(p, k) else Parent(p, k) + Pow2(k)
  {
    if k > 0 { ParentHalves(p / 2, k - 1); } else { assert Floor(p, 1) == 2 * Floor(p / 2, 0); }
  }

  /** Flipping bit k of an aligned number gives the other half of the parent. */
  lemma {:induction false} FlipIsBuddy(p: nat, k: nat)
    requires Aligned(p, k)
    ensures !Aligned(p, k + 1) ==> p >= Pow2(k)
    ensures FlipBit(p, k) == if Aligned(p, k + 1) then p + Pow2(k) else p - Pow2(k)
    decreases k
  {
    if k > 0 { FlipIsBuddy(p / 2, k - 1); }
  }

  /** The buddy is aligned, has the same parent, and flipping back returns. */
  lemma {:induction false} BuddyFacts(p: nat, k: nat)
    requires Aligned(p, k)
    ensures var b := FlipBit(p, k);
      && Aligned(b, k) && b != p && Parent(b, k) == Parent(p, k) && FlipBit(b, k) == p
      && (if p < b then p == Parent(p, k) && b == p + Pow2(k) else b == Parent(p, k) && p == b + Pow2(k))
  {
    var b := FlipBit(p, k);
    if k > 0 {
      BuddyFacts(p / 2, k - 1);
      assert b / 2 == FlipBit(p / 2, k - 1) && b % 2 == p % 2;
    } else {
      assert Floor(p, 1) == 2 * Floor(p / 2, 0) && Floor(b, 1) == 2 * Floor(b / 2, 0);
    }
  }

  /** The xor on byte addresses flips the same bit of the page number. */
  lemma {:induction false} FlipShifted(p: nat, k: nat, s: nat)
    ensures FlipBit(Shift(p, s), k + s) == Shift(FlipBit(p, k), s)
    decreases s
  {
    if s > 0 {
      FlipShifted(p, k, s - 1);
      var x := Shift(p, s - 1);
      assert (2 * x) / 2 == x && (2 * x) % 2 == 0;
    }
  }
}
