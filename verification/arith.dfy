/** Powers of two and the division facts the word-level reasoning rests on. */
module Arith {

  /** 2^k. */
  function Pow2(k: nat): (r: nat)
    ensures r >= 1
  {
    if k == 0 then 1 else 2 * Pow2(k - 1)
  }

  lemma {:induction false} Pow2Add(a: nat, b: nat)
    ensures Pow2(a + b) == Pow2(a) * Pow2(b)
  {
    if b > 0 {
      Pow2Add(a, b - 1);
      calc {
        Pow2(a + b);
        2 * Pow2(a + b - 1);
        2 * (Pow2(a) * Pow2(b - 1));
        Pow2(a) * (2 * Pow2(b - 1));
        Pow2(a) * Pow2(b);
      }
    }
  }

  lemma {:induction false} Pow2Monotone(a: nat, b: nat)
    requires a < b
    ensures Pow2(a) < Pow2(b)
  {
    if a + 1 < b {
      Pow2Monotone(a, b - 1);
    }
  }

  lemma MulLeftMonotone(a: int, b: int, c: int)
    requires a <= b && c >= 0
    ensures a * c <= b * c
  {
  }

  /** Division by a positive number has exactly one quotient and remainder. */
  lemma DivModUnique(n: int, d: int, q: int, r: int)
    requires d > 0 && 0 <= r < d && n == q * d + r
    ensures n / d == q && n % d == r
  {
    var q', r' := n / d, n % d;
    assert n == q' * d + r';
    if q > q' {
      MulLeftMonotone(1, q - q', d);
    } else if q < q' {
      MulLeftMonotone(1, q' - q, d);
    }
  }

  /** A smaller power of two divides a larger one. */
  lemma Pow2Divides(k: nat, n: nat)
    requires k <= n
    ensures Pow2(n) % Pow2(k) == 0
  {
    Pow2Add(n - k, k);
    DivModUnique(Pow2(n), Pow2(k), Pow2(n - k), 0);
  }
  lemma MulDistrib(a: int, b: int, k: int)
    ensures (a + b) * k == a * k + b * k
  {
  }

  lemma MulDistribSub(a: int, b: int, k: int)
    ensures (a - b) * k == a * k - b * k
  {
  }

  lemma MulAssoc(a: int, b: int, c: int)
    ensures (a * b) * c == a * (b * c)
  {
  }

  /** An index k inside the block [b, b + d), where b is a multiple of d, lies at offset k - b. */
  lemma OffsetInBlock(k: int, b: int, d: int)
    requires d > 0 && b % d == 0 && b <= k < b + d
    ensures k % d == k - b
  {
    DivModUnique(k, d, b / d, k - b);
  }

  /** In a length n that is a multiple of d, the whole block of length d holding k fits. */
  lemma BlockFits(k: int, n: int, d: int)
    requires d > 0 && n % d == 0 && 0 <= k < n
    ensures k % d <= k && k - k % d + d <= n
  {
    var q, m := k / d, n / d;
    if q >= m {
      MulLeftMonotone(m, q, d);
    }
    MulLeftMonotone(q + 1, m, d);
    MulDistrib(q, 1, d);
  }

  /** Removing a multiple of d keeps the offset modulo d. */
  lemma ModShift(k: int, m: int, d: int)
    requires d > 0 && m % d == 0 && 0 <= m <= k
    ensures (k - m) % d == k % d
  {
    MulDistribSub(k / d, m / d, d);
    DivModUnique(k - m, d, k / d - m / d, k % d);
  }

  /** Dividing by a, then by b, is dividing by a * b. */
  lemma DivDiv(x: int, a: int, b: int)
    requires x >= 0 && a > 0 && b > 0
    ensures x / (a * b) == (x / a) / b
  {
    var q1, r1 := x / a, x % a;
    var q2, r2 := q1 / b, q1 % b;
    MulLeftMonotone(r2, b - 1, a);
    MulDistribSub(b, 1, a);
    MulDistrib(q2 * b, r2, a);
    MulAssoc(q2, b, a);
    assert x == q2 * (a * b) + (r2 * a + r1);
    DivModUnique(x, a * b, q2, r2 * a + r1);
  }

  /** A number below m * d has a quotient by d below m. */
  lemma QuotientBound(x: int, d: int, m: int)
    requires 0 <= x < m * d && d > 0
    ensures 0 <= x / d < m && (x / d) * d <= x
  {
    var q, r := x / d, x % d;
    assert x == q * d + r;
    if q >= m {
      MulLeftMonotone(m, q, d);
    } else if q < 0 {
      MulLeftMonotone(q, -1, d);
    }
  }

  /** Complementing x below pW = 2 * e * p flips the parity of its quotient by p. */
  lemma FlipArith(x: int, p: int, e: int, pW: int)
    requires p >= 1 && e >= 1 && pW == 2 * e * p && 0 <= x < pW
    ensures ((pW - 1 - x) / p) % 2 == 1 - (x / p) % 2
  {
    var q, rm := x / p, x % p;
    QuotientBound(x, p, 2 * e);
    MulDistribSub(2 * e - 1, q, p);
    MulDistribSub(2 * e, 1, p);
    assert pW - 1 - x == (2 * e - 1 - q) * p + (p - 1 - rm);
    DivModUnique(pW - 1 - x, p, 2 * e - 1 - q, p - 1 - rm);
    DivModUnique(2 * e - 1 - q, 2, e - q / 2 - 1, 1 - q % 2);
  }
}
