/** Level counts of the trees in core/util: how many rounds of (m+1)/2 bring n nodes down to one,
    and how many slots the flat array of a tree needs. */
module Levels {

  function Pow2(k: nat): (p: nat)
    ensures p >= 1
  {
    if k == 0 then 1 else 2 * Pow2(k - 1)
  }

  /** Number of parents of n nodes. */
  function Half(n: nat): nat {
    (n + 1) / 2
  }

  /** Number of nodes that are left after l rounds. */
  function Width(n: nat, l: nat): nat {
    if l == 0 then n else Half(Width(n, l - 1))
  }

  /** The least k >= from with n <= 2^k, by search. */
  function CeilLog2From(n: nat, from: nat): (k: nat)
    requires from > 0 ==> Pow2(from - 1) < n
    ensures n <= Pow2(k) && (k > 0 ==> Pow2(k - 1) < n)
    decreases n - Pow2(from)
  {
    if n <= Pow2(from) then from else CeilLog2From(n, from + 1)
  }

  /** Stands for int(math.Ceil(math.Log2(float64(n)))), computed exactly. */
  function CeilLog2(n: nat): (k: nat)
    requires n >= 1
    ensures n <= Pow2(k) && (k > 0 ==> Pow2(k - 1) < n)
  {
    CeilLog2From(n, 0)
  }

  lemma {:induction false} Pow2Monotone(a: nat, b: nat)
    requires a <= b
    ensures Pow2(a) <= Pow2(b)
    decreases b - a
  {
    if a < b {
      Pow2Monotone(a, b - 1);
    }
  }

  lemma CeilLog2Unique(n: nat, k: nat)
    requires n >= 1
    requires n <= Pow2(k) && (k > 0 ==> Pow2(k - 1) < n)
    ensures CeilLog2(n) == k
  {
    var c := CeilLog2(n);
    if c < k {
      Pow2Monotone(c, k - 1);
    } else if k < c {
      Pow2Monotone(k, c - 1);
    }
  }

  lemma CeilLog2Half(n: nat)
    requires n >= 2
    ensures CeilLog2(n) == 1 + CeilLog2(Half(n))
  {
    var k := CeilLog2(Half(n));
    assert Pow2(k + 1) == 2 * Pow2(k);
    CeilLog2Unique(n, k + 1);
  }

  lemma {:induction false} WidthShift(n: nat, l: nat)
    ensures Width(n, l + 1) == Width(Half(n), l)
  {
    if l > 0 {
      WidthShift(n, l - 1);
    }
  }

  /** ceil(log2 n) rounds are exactly enough: one node is left then, and two or more before. */
  lemma {:induction false} RoundsReachOne(n: nat)
    requires n >= 1
    ensures Width(n, CeilLog2(n)) == 1
    ensures forall l :: 0 <= l < CeilLog2(n) ==> Width(n, l) >= 2
    decreases n
  {
    if n == 1 {
      CeilLog2Unique(1, 0);
    } else {
      CeilLog2Half(n);
      RoundsReachOne(Half(n));
      WidthShift(n, CeilLog2(n) - 1);
      forall l | 0 <= l < CeilLog2(n)
        ensures Width(n, l) >= 2
      {
        if l > 0 {
          WidthShift(n, l - 1);
        }
      }
    }
  }

  /** Once one node is left, further rounds keep it; so a round limit above ceil(log2 n) changes nothing. */
  lemma {:induction false} WidthStaysOne(n: nat, l: nat)
    requires n >= 1 && l >= CeilLog2(n)
    ensures Width(n, l) == 1
  {
    if l == CeilLog2(n) {
      RoundsReachOne(n);
    } else {
      WidthStaysOne(n, l - 1);
    }
  }

  lemma LevelBelowTop(n: nat, l: nat)
    requires n >= 1 && l <= CeilLog2(n)
    ensures Width(n, l) > 1 <==> l < CeilLog2(n)
  {
    RoundsReachOne(n);
  }

  lemma {:induction false} WidthPositive(n: nat, l: nat)
    requires n >= 1
    ensures 1 <= Width(n, l) <= n
  {
    if l > 0 {
      WidthPositive(n, l - 1);
    }
  }

  /** Slots taken by the first k levels: where level k starts in the flat array. */
  function Offset(n: nat, k: nat): nat {
    if k == 0 then 0 else Offset(n, k - 1) + Width(n, k - 1)
  }

  lemma {:induction false} OffsetShift(n: nat, k: nat)
    ensures Offset(n, k + 1) == n + Offset(Half(n), k)
  {
    if k > 0 {
      OffsetShift(n, k - 1);
      WidthShift(n, k - 1);
    }
  }

  lemma {:induction false} OffsetMonotone(n: nat, a: nat, b: nat)
    requires a <= b
    ensures Offset(n, a) <= Offset(n, b)
    decreases b
  {
    if a < b {
      OffsetMonotone(n, a, b - 1);
    }
  }

  /** All levels of a tree over n >= 1 leaves fit in 2n-1 to 2n-1+ceil(log2 n) slots. */
  lemma {:induction false} TreeSizeBounds(n: nat)
    requires n >= 1
    ensures 2 * n - 1 <= Offset(n, CeilLog2(n) + 1) <= 2 * n - 1 + CeilLog2(n)
    decreases n
  {
    if n == 1 {
      CeilLog2Unique(1, 0);
      assert Offset(1, 1) == 1;
    } else {
      CeilLog2Half(n);
      TreeSizeBounds(Half(n));
      OffsetShift(n, CeilLog2(n));
    }
  }
}
