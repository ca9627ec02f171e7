/**
 Aligned power-of-two blocks over an array of page frames.

 Alignment is defined by halving, so that every fact about nesting and buddies is an
 induction over the order in linear arithmetic. `AlignedIsMod` ties it to the remainder
 that buddy_merge computes.
 */
module BuddyBlocks {
  import opened Common

  predicate Aligned(x: nat, k: nat) {
    k == 0 || (x % 2 == 0 && Aligned(x / 2, k - 1))
  }

  /* The other half of the block of order k+1 that an aligned block of order k lies in. */
  function BuddyOf(x: nat, k: nat): int {
    if Aligned(x, k + 1) then x + Pow2(k) else x - Pow2(k)
  }

  /* The block of order k+1 that an aligned block of order k lies in. */
  function ParentOf(x: nat, k: nat): int {
    if Aligned(x, k + 1) then x else x - Pow2(k)
  }

  lemma {:induction false} AlignedIsMod(x: nat, k: nat)
    ensures Aligned(x, k) <==> x % Pow2(k) == 0
  {
    if k > 0 {
      AlignedIsMod(x / 2, k - 1);
      ModHalf(x, Pow2(k - 1));
    }
  }

  lemma ModHalf(x: nat, s: nat)
    requires s >= 1
    ensures x % (2 * s) == 0 <==> x % 2 == 0 && (x / 2) % s == 0
  {
    var n := 2 * s;
    var q, r := DivMod(x, n);
    DoubleProduct(s, q, n);
    HalfRemainder(s, q, r);
  }

  lemma DivMod(x: nat, n: nat) returns (q: nat, r: nat)
    requires n >= 1
    ensures x == n * q + r && r < n && r == x % n
  {
    q, r := x / n, x % n;
  }

  lemma DoubleProduct(s: nat, q: nat, n: nat)
    requires n == 2 * s
    ensures n * q == 2 * (s * q)
  {
  }

  lemma HalfRemainder(s: nat, q: nat, r: nat)
    requires r < 2 * s
    ensures var x := 2 * (s * q) + r;
      (x / 2) % s == r / 2 && x % 2 == r % 2
  {
    var m := s * q;
    HalveSum(m, r);
    RemainderUnique(q, s, r / 2);
  }

  lemma HalveSum(m: nat, r: nat)
    ensures (2 * m + r) / 2 == m + r / 2 && (2 * m + r) % 2 == r % 2
  {
  }

  lemma RemainderUnique(q: nat, s: nat, t: nat)
    requires t < s
    ensures (s * q + t) % s == t
  {
    var a := s * q + t;
    var d, r := a / s, a % s;
    assert a == s * d + r;
    assert s * (q - d) == s * q - s * d;
    SmallMultiple(q - d, s, r - t);
  }

  lemma SmallMultiple(c: int, s: int, r: int)
    requires s * c == r && -s < r < s
    ensures r == 0
  {
  }

  lemma {:induction false} SizeMonotone(k: nat, m: nat)
    requires k <= m
    ensures Pow2(k) <= Pow2(m) && (k < m ==> 2 * Pow2(k) <= Pow2(m))
    decreases m
  {
    if k < m {
      SizeMonotone(k, m - 1);
    }
  }

  /* Two aligned blocks are disjoint, or the smaller lies inside the larger. */
  lemma {:induction false} Nested(x: nat, k: nat, y: nat, m: nat)
    requires k <= m && Aligned(x, k) && Aligned(y, m)
    ensures x + Pow2(k) <= y || y + Pow2(m) <= x || (y <= x && x + Pow2(k) <= y + Pow2(m))
    decreases k
  {
    if k > 0 {
      Nested(x / 2, k - 1, y / 2, m - 1);
    }
  }

  lemma {:induction false} CoarserAligned(x: nat, k: nat, m: nat)
    requires k <= m && Aligned(x, m)
    ensures Aligned(x, k)
    decreases k
  {
    if k > 0 {
      CoarserAligned(x / 2, k - 1, m - 1);
    }
  }

  lemma {:induction false} BlockInRange(x: nat, k: nat, n: nat, top: nat)
    requires k <= top && Aligned(x, k) && Aligned(n, top) && x < n
    ensures x + Pow2(k) <= n
    decreases k
  {
    if k > 0 {
      BlockInRange(x / 2, k - 1, n / 2, top - 1);
    }
  }

  /* The two halves of a block, seen from either half. */
  lemma {:induction false} Halves(x: nat, k: nat)
    requires Aligned(x, k)
    ensures BuddyOf(x, k) >= 0 && Aligned(BuddyOf(x, k), k)
    ensures BuddyOf(BuddyOf(x, k), k) == x
    ensures ParentOf(x, k) >= 0 && Aligned(ParentOf(x, k), k + 1)
    ensures ParentOf(BuddyOf(x, k), k) == ParentOf(x, k)
    decreases k
  {
    if k == 0 {
      assert forall y: nat :: Aligned(y, 1) <==> y % 2 == 0;
    } else {
      Halves(x / 2, k - 1);
      assert BuddyOf(x, k) == 2 * BuddyOf(x / 2, k - 1);
      assert ParentOf(x, k) == 2 * ParentOf(x / 2, k - 1);
    }
  }

  /* An aligned block of order k+1 splits into two aligned halves that are buddies. */
  lemma SplitHalves(x: nat, k: nat)
    requires Aligned(x, k + 1)
    ensures Aligned(x, k) && BuddyOf(x, k) == x + Pow2(k)
    ensures Aligned(x + Pow2(k), k) && BuddyOf(x + Pow2(k), k) == x
  {
    CoarserAligned(x, k, k + 1);
    Halves(x, k);
  }
}
