/**
 * Arithmetic on the C type size_t, as src/fft.c uses it. A size_t value is a
 * natural number below 2^W. Shifts follow the C standard: E1 << E2 is
 * E1 * 2^E2 reduced modulo 2^W, and E1 >> E2 is the floor of E1 / 2^E2. Both
 * are undefined when E2 >= W, so these functions require E2 < W and the
 * callers decide what an out-of-range shift means.
 */
module MachineWord {
  import opened Arith

  /** CHAR_BIT. */
  const CharBit: nat := 8
  /** sizeof (size_t) on an LP64 target. */
  const SizeofSizeT: nat := 8
  /** Width of size_t in bits. */
  const W: nat := SizeofSizeT * CharBit

  /** x << k. */
  function Shl(x: nat, k: nat): (r: nat)
    requires x < Pow2(W) && k < W
    ensures r < Pow2(W)
  {
    (x * Pow2(k)) % Pow2(W)
  }

  /** x >> k: the k low bits drop out, so the result fits in W - k bits. */
  function Shr(x: nat, k: nat): (r: nat)
    requires x < Pow2(W) && k < W
    ensures r < Pow2(W - k)
  {
    QuotientFits(x, k);
    x / Pow2(k)
  }

  /** a * b, wrapping modulo 2^W as unsigned arithmetic does. */
  function MulWord(a: nat, b: nat): (r: nat)
    requires a < Pow2(W) && b < Pow2(W)
    ensures r < Pow2(W)
  {
    (a * b) % Pow2(W)
  }

  /** ~x: every one of the W bits flipped (NotBit); zero exactly for the all-ones word. */
  function Not(x: nat): (r: nat)
    requires x < Pow2(W)
    ensures r < Pow2(W)
    ensures r == 0 <==> x == Pow2(W) - 1
  {
    Pow2(W) - 1 - x
  }

  /** a | b, bit by bit from the least significant bit (OrBit): at least each operand, at most their sum. */
  function Or(a: nat, b: nat): (r: nat)
    ensures a <= r && b <= r && r <= a + b
    decreases a + b
  {
    if a == 0 then b
    else if b == 0 then a
    else (if a % 2 == 1 || b % 2 == 1 then 1 else 0) + 2 * Or(a / 2, b / 2)
  }

  /** Setting a bit above every set bit of x adds it. */
  lemma {:induction false} OrHighBit(x: nat, k: nat)
    requires x < Pow2(k)
    ensures Or(x, Pow2(k)) == x + Pow2(k)
  {
    if x > 0 && k > 0 {
      OrHighBit(x / 2, k - 1);
    }
  }

  /** Position of the highest set bit of a positive number. */
  function Log2(x: nat): (r: nat)
    requires x >= 1
    ensures Pow2(r) <= x < Pow2(r + 1)
  {
    if x == 1 then 0 else 1 + Log2(x / 2)
  }

  lemma Log2Unique(x: nat, k: nat)
    requires Pow2(k) <= x < Pow2(k + 1)
    ensures Log2(x) == k
  {
    var r := Log2(x);
    if r < k {
      Pow2Monotone(r + 1, k + 1);
      if r + 1 < k { Pow2Monotone(r + 1, k); }
    } else if r > k {
      Pow2Monotone(k + 1, r + 1);
      if k + 1 < r { Pow2Monotone(k + 1, r); }
    }
  }

  /**
   * fft_clz on a nonzero word (src/fft.c:8-12, the __builtin_clz branch): the
   * number of zero bits above the highest set bit. __builtin_clz(0) is
   * undefined, hence the requires.
   */
  function Clz(x: nat): (r: nat)
    requires 0 < x < Pow2(W)
    ensures r < W
    ensures Pow2(W - 1 - r) <= x < Pow2(W - r)
  {
    var top := Log2(x);
    assert top < W by {
      if top >= W {
        if top > W { Pow2Monotone(W, top); }
      }
    }
    W - 1 - top
  }

  /** A word between 2^(W-1-c) and 2^(W-c) has exactly c leading zeros. */
  lemma ClzExact(x: nat, c: nat)
    requires c < W && Pow2(W - 1 - c) <= x < Pow2(W - c)
    ensures x < Pow2(W) && Clz(x) == c
  {
    if c > 0 { Pow2Monotone(W - c, W); }
    Log2Unique(x, W - 1 - c);
  }

  /** A number already below 2^W is its own residue. */
  lemma ModBelow(n: nat, d: nat)
    requires n < d
    ensures n % d == n
  {
    DivModUnique(n, d, 0, n);
  }

  /** (size_t)1 << k is 2^k. */
  lemma ShlOne(k: nat)
    requires k < W
    ensures Shl(1, k) == Pow2(k)
  {
    Pow2Monotone(k, W);
    ModBelow(Pow2(k), Pow2(W));
  }

  /** The quotient of a word by 2^k fits in W - k bits. */
  lemma QuotientFits(x: nat, k: nat)
    requires x < Pow2(W) && k < W
    ensures 0 <= x / Pow2(k) < Pow2(W - k)
  {
    var p, m := Pow2(k), Pow2(W - k);
    assert x < m * p by {
      Pow2Add(W - k, k);
    }
    QuotientBound(x, p, m);
  }

  /** Bit i of x. */
  function Bit(x: nat, i: nat): (r: nat)
    ensures r < 2
  {
    (x / Pow2(i)) % 2
  }

  /** Bit i + 1 of x is bit i of x / 2. */
  lemma BitOfHalf(x: nat, i: nat)
    ensures Bit(x, i + 1) == Bit(x / 2, i)
  {
    DivDiv(x, 2, Pow2(i));
  }

  /** Bit i of x >> k is bit i + k of x. */
  lemma ShrBit(x: nat, k: nat, i: nat)
    requires x < Pow2(W) && k < W
    ensures Bit(Shr(x, k), i) == Bit(x, i + k)
  {
    Pow2Add(k, i);
    DivDiv(x, Pow2(k), Pow2(i));
  }

  /** Each of the W bits of ~x is the flipped bit of x. */
  lemma NotBit(x: nat, i: nat)
    requires x < Pow2(W) && i < W
    ensures Bit(Not(x), i) == 1 - Bit(x, i)
  {
    assert Pow2(W) == 2 * Pow2(W - i - 1) * Pow2(i) by {
      Pow2Add(W - i, i);
    }
    FlipArith(x, Pow2(i), Pow2(W - i - 1), Pow2(W));
  }

  /** Bit 0 is the remainder by 2. */
  lemma BitZero(x: nat)
    ensures Bit(x, 0) == x % 2
  {
    assert Pow2(0) == 1;
  }

  /** Below the lowest bit, a | b is the OR of the halves. */
  lemma OrHalf(a: nat, b: nat)
    requires a != 0 && b != 0
    ensures Or(a, b) / 2 == Or(a / 2, b / 2)
    ensures Or(a, b) % 2 == if a % 2 == 1 || b % 2 == 1 then 1 else 0
  {
    DivModUnique(Or(a, b), 2, Or(a / 2, b / 2), if a % 2 == 1 || b % 2 == 1 then 1 else 0);
  }

  /** Each bit of a | b is set exactly when it is set in a or in b. */
  lemma {:induction false} OrBit(a: nat, b: nat, i: nat)
    ensures Bit(Or(a, b), i) == if Bit(a, i) == 1 || Bit(b, i) == 1 then 1 else 0
    decreases i
  {
    if a == 0 || b == 0 {
      DivModUnique(0, Pow2(i), 0, 0);
    } else if i == 0 {
      OrHalf(a, b);
      BitZero(Or(a, b));
      BitZero(a);
      BitZero(b);
    } else {
      OrHalf(a, b);
      OrBit(a / 2, b / 2, i - 1);
      BitOfHalf(Or(a, b), i - 1);
      BitOfHalf(a, i - 1);
      BitOfHalf(b, i - 1);
    }
  }
}
