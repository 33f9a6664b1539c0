/** Multiplication, quotients and remainders, one small fact at a time. */
module Arith {

  /** DIV_ROUND_UP. */
  function CeilDiv(n: nat, m: nat): (c: nat)
    requires m >= 1
    ensures n / m <= c && n / m * m <= n <= c * m
    ensures c == 0 || (c - 1) * m < n
  {
    var q, r := n / m, n % m;
    assert n == q * m + r;
    assert (q + 1) * m == q * m + m && (q - 1) * m == q * m - m;
    if r == 0 then q else q + 1
  }

  lemma MulMonotone(x: int, y: int, base: nat)
    requires x <= y
    ensures x * base <= y * base
  {
    assert 0 <= (y - x) * base;
  }

  lemma MulCancels(x: int, y: int, base: nat)
    requires x * base < y * base
    ensures x < y
  {
    if y <= x {
      MulMonotone(y, x, base);
    }
  }

  /** The quotient and the remainder of naturals are naturals. */
  lemma QuotientSign(n: nat, base: nat)
    requires base >= 1
    ensures 0 <= n / base && 0 <= n % base < base
  {
  }

  lemma DigitSplits(hi: nat, lo: nat, base: nat)
    requires lo < base
    ensures (hi * base + lo) / base == hi && (hi * base + lo) % base == lo
  {
    var n := hi * base + lo;
    var q := n / base;
    assert q * base <= n < (q + 1) * base;
    MulCancels(q, hi + 1, base);
    MulCancels(hi, q + 1, base);
  }

  lemma DigitBound(hi: nat, lo: nat, base: nat, top: nat)
    requires hi < top && lo < base
    ensures hi * base + lo < top * base
  {
    assert (hi + 1) * base <= top * base;
    assert (hi + 1) * base == hi * base + base;
  }

  lemma QuotientBound(n: nat, base: nat, top: nat)
    requires base >= 1 && n < top * base
    ensures n / base < top
  {
    assert n / base * base <= n;
    MulCancels(n / base, top, base);
  }

  lemma OneMore(n: nat, size: nat)
    ensures (n + 1) * size == n * size + size
  {
  }

  lemma TwoQuotients(q: nat, p: nat, size: nat)
    ensures q * size + p * size == (q + p) * size
  {
  }

  lemma NextQuotient(n: nat, m: nat)
    requires m >= 1
    ensures if n % m + 1 < m
            then (n + 1) / m == n / m && (n + 1) % m == n % m + 1
            else (n + 1) / m == n / m + 1 && (n + 1) % m == 0
  {
    var q, r := n / m, n % m;
    NextIs(n, q, r, m);
    if r + 1 < m {
      DigitSplits(q, r + 1, m);
    } else {
      DigitSplits(q + 1, 0, m);
    }
  }

  lemma NextIs(n: nat, q: nat, r: nat, m: nat)
    requires n == q * m + r && r < m
    ensures n + 1 == if r + 1 < m then q * m + (r + 1) else (q + 1) * m + 0
  {
  }

  lemma SmallMod(n: nat, m: nat)
    requires n < m
    ensures n % m == n && n / m == 0
  {
  }

  lemma SelfMod(m: nat)
    requires m >= 1
    ensures m % m == 0
  {
  }

  lemma WholeTurn(k: nat, m: nat)
    requires m >= 1
    ensures (m + k) % m == k % m
  {
    var q, r := k / m, k % m;
    OneMore(q, m);
    DigitSplits(q + 1, r, m);
  }
}
