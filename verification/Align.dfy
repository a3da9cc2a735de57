/** Alignment of sizes and offsets. */
module Align {

  /** `ALIGN` in src/core/file.c */
  const ALIGN: nat := 4 * 1024

  /** `ffint_align_floor2` */
  function AlignFloor(n: nat): (r: nat)
    ensures r <= n < r + ALIGN && r % ALIGN == 0
  {
    n - n % ALIGN
  }

  function Pow2(k: nat): (p: nat)
    ensures p > 0
  {
    if k == 0 then 1 else 2 * Pow2(k - 1)
  }

  ghost predicate IsPower2(p: nat)
  {
    exists k: nat :: p == Pow2(k)
  }

  function Power2From(p: nat, n: nat, ghost k: nat): (q: nat)
    requires p == Pow2(k) && (p == 1 || p / 2 < n)
    ensures n <= q && IsPower2(q) && (q == 1 || q / 2 < n)
    decreases n - p
  {
    if n <= p then p
    else
      assert 2 * p == Pow2(k + 1);
      Power2From(2 * p, n, k + 1)
  }

  /** `ffint_align_power2`: the smallest power of two that is at least `n`. */
  function AlignPower2(n: nat): (p: nat)
    ensures n <= p && IsPower2(p) && (p == 1 || p / 2 < n)
  {
    assert Pow2(0) == 1;
    Power2From(1, n, 0)
  }

  lemma {:induction false} Pow2Grows(j: nat, k: nat)
    requires j < k
    ensures 2 * Pow2(j) <= Pow2(k)
    decreases k
  {
    if j < k - 1 {
      Pow2Grows(j, k - 1);
    }
  }

  /** No smaller power of two is enough. */
  lemma AlignPower2IsLeast(n: nat, p: nat)
    requires IsPower2(p) && n <= p
    ensures AlignPower2(n) <= p
  {
    hide AlignPower2;
    var q := AlignPower2(n);
    var j: nat :| p == Pow2(j);
    var k: nat :| q == Pow2(k);
    if p < q {
      if j < k {
        Pow2Grows(j, k);
      } else if k < j {
        Pow2Grows(k, j);
      }
    }
  }
}
