/** JavaScript's numbers: the least, the greatest, and where their limits show. */
module Numbers {
  const MAX_SAFE_INTEGER: nat := 0x1F_FFFF_FFFF_FFFF
  /** No array is longer (section 10.4.2 of ECMA-262). */
  const MAX_ARRAY_LENGTH: nat := 0xFFFF_FFFF
  const TWO_53: nat := 0x20_0000_0000_0000

  function Max(a: nat, b: nat): nat { if a > b then a else b }

  function Min(a: nat, b: nat): nat { if a < b then a else b }

  /** The distance between neighbouring doubles around `n`. */
  function Gap(n: nat): (gap: nat)
    ensures gap > 0
    ensures n < TWO_53 ==> gap == 1
    ensures n >= TWO_53 ==> gap >= 2 && TWO_53 * gap <= 2 * n
  {
    if n < TWO_53 then 1 else 2 * Gap(n / 2)
  }

  /** `Number(n)` of a BigInt: the nearest double, the even one of two equally near. */
  function Number(n: nat): nat {
    var q, r := n / Gap(n), n % Gap(n);
    (if 2 * r > Gap(n) || (2 * r == Gap(n) && q % 2 == 1) then q + 1 else q) * Gap(n)
  }

  /** It is a multiple of the gap no further away than half of it, an even one where two are as near. */
  lemma NumberNearest(n: nat)
    ensures exists q :: && Number(n) == q * Gap(n)
                        && 0 - Gap(n) <= 2 * (Number(n) - n) <= Gap(n)
                        && (2 * (Number(n) - n) == Gap(n) || 2 * (n - Number(n)) == Gap(n) ==> q % 2 == 0)
  {
    var gap, q, r := Gap(n), n / Gap(n), n % Gap(n);
    var chosen := if 2 * r > gap || (2 * r == gap && q % 2 == 1) then q + 1 else q;
    assert n == q * gap + r;
    assert (q + 1) * gap == q * gap + gap;
    assert Number(n) == chosen * gap;
  }

  /** The first integer the script misreads. */
  lemma FirstRounded()
    ensures Number(TWO_53 + 1) == TWO_53
  {
    assert Gap(TWO_53 + 1) == 2 * Gap((TWO_53 + 1) / 2) == 2;
  }

  lemma Multiples(k: nat, q: nat, gap: nat)
    requires k <= q
    ensures k * gap <= q * gap
  {}

  lemma QuotientAtLeast(k: nat, n: nat, gap: nat)
    requires gap > 0 && k * gap <= n
    ensures k <= n / gap
  {
    if n / gap < k { Multiples(n / gap + 1, k, gap); }
  }

  /** Rounding moves no number across a safe one. */
  lemma NumberReaches(n: nat, k: nat)
    requires k <= TWO_53
    ensures Number(n) >= k <==> n >= k
    ensures n <= TWO_53 ==> Number(n) == n
  {
    if n >= TWO_53 {
      var gap, half := Gap(n), TWO_53 / 2;
      assert half * gap <= n;
      QuotientAtLeast(half, n, gap);
      Multiples(half, n / gap, gap);
      Multiples(n / gap, n / gap + 1, gap);
      assert TWO_53 <= half * gap <= Number(n);
    }
  }
}
