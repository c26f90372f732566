/**
 * The bit-reversed index r(n) of src/fft.c and the counter update that
 * `rader` and `rader_inplace` use to step r(n) to r(n + 1) without
 * recomputing it (src/fft.c:38-43 and 55-60).
 */
module BitReversal {
  import opened Arith
  import opened MachineWord

  /** r(n): the low L bits of n, written in reverse order. */
  function Reverse(n: nat, L: nat): (r: nat)
    ensures r < Pow2(L)
  {
    if L == 0 then 0
    else (if n % 2 == 1 then Pow2(L - 1) else 0) + Reverse(n / 2, L - 1)
  }

  /** The same reversal, read by peeling off the most significant bit. */
  lemma {:induction false} ReverseTopBit(n: nat, L: nat)
    requires 1 <= L && n < Pow2(L)
    ensures n >= Pow2(L - 1) ==> Reverse(n, L) == 2 * Reverse(n - Pow2(L - 1), L - 1) + 1
    ensures n < Pow2(L - 1) ==> Reverse(n, L) == 2 * Reverse(n, L - 1)
  {
    if L > 1 {
      ReverseTopBit(n / 2, L - 1);
      if n >= Pow2(L - 1) {
        var half := Pow2(L - 2);
        assert Pow2(L - 1) == 2 * half;
        DivModUnique(n - Pow2(L - 1), 2, n / 2 - half, n % 2);
        assert Reverse(n - Pow2(L - 1), L - 1)
          == (if n % 2 == 1 then Pow2(L - 2) else 0) + Reverse(n / 2 - Pow2(L - 2), L - 2);
      } else {
        assert Reverse(n, L - 1)
          == (if n % 2 == 1 then Pow2(L - 2) else 0) + Reverse(n / 2, L - 2);
      }
    }
  }

  /** r is an involution on [0, 2^L). */
  lemma {:induction false} ReverseInvolution(n: nat, L: nat)
    requires n < Pow2(L)
    ensures Reverse(Reverse(n, L), L) == n
  {
    if L > 0 {
      ReverseInvolution(n / 2, L - 1);
      ReverseTopBit(Reverse(n, L), L);
    }
  }

  /** r is one-to-one on [0, 2^L), hence a bijection of that range. */
  lemma ReverseInjective(a: nat, b: nat, L: nat)
    requires a < Pow2(L) && b < Pow2(L) && a != b
    ensures Reverse(a, L) != Reverse(b, L)
  {
    ReverseInvolution(a, L);
    ReverseInvolution(b, L);
  }

  /** Index 0 is a fixed point. */
  lemma {:induction false} ReverseZero(L: nat)
    ensures Reverse(0, L) == 0
  {
    if L > 0 { ReverseZero(L - 1); }
  }

  /** Index 2^L - 1 (all ones) is a fixed point. */
  lemma {:induction false} ReverseAllOnes(L: nat)
    ensures Reverse(Pow2(L) - 1, L) == Pow2(L) - 1
  {
    if L > 0 {
      ReverseAllOnes(L - 1);
      DivModUnique(Pow2(L) - 1, 2, Pow2(L - 1) - 1, 1);
    }
  }

  /** size = 1 << L is 2^L, and size >> 1, the start value of the counter in rader_inplace, is r(1). */
  lemma CounterStart(L: nat)
    requires L < W
    ensures Shl(1, L) == Pow2(L)
    ensures Shr(Shl(1, L), 1) == Reverse(1, L)
  {
    ShlOne(L);
    assert Pow2(1) == 2;
    if L > 0 {
      ReverseZero(L - 1);
      DivModUnique(Pow2(L), Pow2(1), Pow2(L - 1), 0);
    } else {
      DivModUnique(1, Pow2(1), 0, 1);
    }
  }

  /** The L-bit value r incremented from its most significant bit, the carry running toward the least significant bit. */
  function MirrorInc(r: nat, L: nat): (next: nat)
    requires r < Pow2(L)
    ensures next < Pow2(L)
  {
    if L == 0 then 0
    else if r < Pow2(L - 1) then r + Pow2(L - 1)
    else MirrorInc(r - Pow2(L - 1), L - 1)
  }

  /** Counting up in n is counting up from the top in r(n). */
  lemma {:induction false} ReverseSucc(n: nat, L: nat)
    requires n + 1 < Pow2(L)
    ensures Reverse(n + 1, L) == MirrorInc(Reverse(n, L), L)
  {
    if n % 2 == 1 {
      DivModUnique(n + 1, 2, n / 2 + 1, 0);
      ReverseSucc(n / 2, L - 1);
    } else {
      DivModUnique(n + 1, 2, n / 2, 1);
    }
  }

  /** The number of one bits at the top of the L-bit pattern of r. */
  function LeadingOnes(r: nat, L: nat): (c: nat)
    requires r < Pow2(L)
    ensures c <= L
  {
    if L == 0 then 0
    else if r < Pow2(L - 1) then 0
    else 1 + LeadingOnes(r - Pow2(L - 1), L - 1)
  }

  /**
   * An L-bit value that is not all ones is c leading ones, a zero, and a
   * remainder below that zero; MirrorInc clears the ones and sets the zero.
   */
  lemma {:induction false} LeadingOnesSplit(r: nat, L: nat)
    requires r < Pow2(L) - 1
    ensures LeadingOnes(r, L) < L
    ensures Pow2(L) - Pow2(L - LeadingOnes(r, L)) <= r
    ensures r - (Pow2(L) - Pow2(L - LeadingOnes(r, L))) < Pow2(L - LeadingOnes(r, L) - 1)
    ensures MirrorInc(r, L)
         == r - (Pow2(L) - Pow2(L - LeadingOnes(r, L))) + Pow2(L - LeadingOnes(r, L) - 1)
  {
    if r >= Pow2(L - 1) {
      LeadingOnesSplit(r - Pow2(L - 1), L - 1);
    }
  }

  /** What the counter update computes, or UndefinedShift where C leaves it undefined. */
  datatype Shifted = Defined(value: nat) | UndefinedShift

  /** a | b of two words is a word. */
  lemma {:induction false} OrBound(a: nat, b: nat, k: nat)
    requires a < Pow2(k) && b < Pow2(k)
    ensures Or(a, b) < Pow2(k)
  {
    if a != 0 && b != 0 {
      OrBound(a / 2, b / 2, k - 1);
    }
  }

  /**
   * The counter update of src/fft.c:39-43 (identically 56-60) applied to the
   * word `reversed`: shift the logsize-bit value to the top of the word, count
   * its leading ones with fft_clz(~x), shift them out, set the top bit and
   * shift back down. Each shift by W or more, and fft_clz of 0, is undefined
   * in C and yields UndefinedShift.
   */
  function MirroredStep(reversed: nat, logsize: nat): (r: Shifted)
    requires logsize < W && reversed < Pow2(W)
    ensures r.Defined? ==> r.value < Pow2(logsize)
  {
    var shift := W - logsize;
    if shift >= W then UndefinedShift
    else
      var x := Shl(reversed, shift);
      var inverted := Not(x);
      if inverted == 0 then UndefinedShift
      else
        var ones := Clz(inverted);
        // the final shift of line 43 is by shift + ones
        if shift + ones >= W then UndefinedShift
        else
          var top := Shl(1, W - 1);
          var y := Or(Shl(x, ones), top);
          OrBound(Shl(x, ones), top, W);
          assert Pow2(W - (shift + ones)) <= Pow2(logsize) by {
            if ones > 0 { Pow2Monotone(logsize - ones, logsize); }
          }
          Defined(Shr(y, shift + ones))
  }

  /**
   * The arithmetic of lines 39-40 on a counter r split as c leading ones, a
   * zero and `rest`, with the powers of two as plain numbers: pX stands for
   * 2^X, where s = W - L is the shift. r << s does not wrap, and ~(r << s)
   * lies in [2^(W-c-1), 2^(W-c)).
   */
  lemma CounterArithUp(r: int, rest: int, pL: int, pLc: int, pLc1: int, ps: int,
                       pW: int, pWc: int, pWc1: int)
    requires r == pL - pLc + rest && 0 <= r && 0 <= rest && rest + 1 <= pLc1 && ps >= 1
    requires pWc == 2 * pWc1 && pWc <= pW
    requires pL * ps == pW && pLc * ps == pWc && pLc1 * ps == pWc1
    ensures r * ps == pW - pWc + rest * ps
    ensures 0 <= r * ps < pW && (r * ps) % pW == r * ps
    ensures pWc1 <= pW - 1 - r * ps < pWc
  {
    MulDistribSub(pL, pLc, ps);
    MulDistrib(pL - pLc, rest, ps);
    MulLeftMonotone(rest + 1, pLc1, ps);
    MulDistrib(rest, 1, ps);
    DivModUnique(r * ps, pW, 0, r * ps);
  }

  /** The arithmetic of line 41: shifting the c leading ones out leaves rest at the top. */
  lemma CounterArithOut(rest: int, ps: int, pc: int, psc: int, pW: int, pW1: int, pWc: int, pLc1: int)
    requires 0 <= rest && rest + 1 <= pLc1 && ps >= 1 && pc >= 1
    requires pWc * pc == pW && ps * pc == psc && pLc1 * psc == pW1 && pW == 2 * pW1
    ensures ((pW - pWc + rest * ps) * pc) % pW == rest * psc
    ensures 0 <= rest * psc < pW1
  {
    var x := pW - pWc + rest * ps;
    MulDistribSub(pW, pWc, pc);
    MulDistrib(pW - pWc, rest * ps, pc);
    MulAssoc(rest, ps, pc);
    MulDistribSub(pc, 1, pW);
    MulLeftMonotone(rest + 1, pLc1, psc);
    MulDistrib(rest, 1, psc);
    assert x * pc == (pc - 1) * pW + rest * psc;
    DivModUnique(x * pc, pW, pc - 1, rest * psc);
  }

  /** Lines 39-40 on r < 2^L - 1: ~(r << (W - L)) is nonzero and has as many leading zeros as r has leading ones. */
  lemma CounterLeadingOnes(r: nat, L: nat)
    requires 1 <= L < W && r < Pow2(L) - 1
    ensures r < Pow2(W)
    ensures Not(Shl(r, W - L)) != 0 && Clz(Not(Shl(r, W - L))) == LeadingOnes(r, L)
  {
    LeadingOnesSplit(r, L);
    var c := LeadingOnes(r, L);
    Pow2Monotone(L, W);
    CounterPowers(L, c);
    CounterArithUp(r, r - (Pow2(L) - Pow2(L - c)), Pow2(L), Pow2(L - c), Pow2(L - c - 1), Pow2(W - L),
                   Pow2(W), Pow2(W - c), Pow2(W - c - 1));
    ClzExact(Not(Shl(r, W - L)), c);
  }

  /** Lines 39 and 41 on r < 2^L - 1 with c leading ones: (r << (W - L)) << c is rest * 2^(W - L + c). */
  lemma CounterShiftOut(r: nat, L: nat, c: nat)
    requires 1 <= L < W && r < Pow2(L) - 1 && c == LeadingOnes(r, L)
    ensures r < Pow2(W) && c < L
    ensures Shl(Shl(r, W - L), c) == (r - (Pow2(L) - Pow2(L - c))) * Pow2(W - L + c)
  {
    LeadingOnesSplit(r, L);
    Pow2Monotone(L, W);
    CounterPowers(L, c);
    var s := W - L;
    var rest := r - (Pow2(L) - Pow2(L - c));
    var x := r * Pow2(s);
    assert Shl(r, s) == x == Pow2(W) - Pow2(W - c) + rest * Pow2(s) by {
      CounterArithUp(r, rest, Pow2(L), Pow2(L - c), Pow2(L - c - 1), Pow2(s), Pow2(W), Pow2(W - c), Pow2(W - c - 1));
    }
    assert (x * Pow2(c)) % Pow2(W) == rest * Pow2(s + c) by {
      CounterArithOut(rest, Pow2(s), Pow2(c), Pow2(s + c), Pow2(W), Pow2(W - 1), Pow2(W - c), Pow2(L - c - 1));
    }
  }

  /** Lines 42-43: setting the top bit above rest * 2^(s + c) and shifting back down by s + c. */
  lemma CounterShiftDown(rest: nat, L: nat, c: nat)
    requires c < L < W && rest < Pow2(L - c - 1)
    ensures rest * Pow2(W - L + c) < Pow2(W - 1)
    ensures Or(rest * Pow2(W - L + c), Shl(1, W - 1)) == rest * Pow2(W - L + c) + Pow2(W - 1)
    ensures Shr(rest * Pow2(W - L + c) + Pow2(W - 1), W - L + c) == rest + Pow2(L - c - 1)
  {
    var psc, pl := Pow2(W - L + c), Pow2(L - c - 1);
    Pow2Add(L - c - 1, W - L + c);
    TopBitArith(rest, psc, pl, Pow2(W - 1));
    ShlOne(W - 1);
    OrHighBit(rest * psc, W - 1);
  }

  /** The arithmetic of lines 42-43: rest * 2^(s+c) stays below the top bit, and shifting back down by s + c leaves rest + 2^(L-c-1). */
  lemma TopBitArith(rest: int, psc: int, pLc1: int, pW1: int)
    requires 0 <= rest < pLc1 && psc >= 1 && pLc1 * psc == pW1
    ensures 0 <= rest * psc < pW1
    ensures (rest * psc + pW1) / psc == rest + pLc1
  {
    MulLeftMonotone(rest + 1, pLc1, psc);
    MulDistrib(rest, 1, psc);
    MulDistrib(rest, pLc1, psc);
    DivModUnique(rest * psc + pW1, psc, rest + pLc1, 0);
  }

  /** Lines 41-43 on r < 2^L - 1 with c leading ones: the result is MirrorInc(r, L). */
  lemma CounterShifts(r: nat, L: nat, c: nat)
    requires 1 <= L < W && r < Pow2(L) - 1 && c == LeadingOnes(r, L)
    ensures r < Pow2(W) && c < L
    ensures var y := Or(Shl(Shl(r, W - L), c), Shl(1, W - 1));
      y < Pow2(W) && Shr(y, W - L + c) == MirrorInc(r, L)
  {
    LeadingOnesSplit(r, L);
    Pow2Monotone(L, W);
    var rest := r - (Pow2(L) - Pow2(L - c));
    assert Shl(Shl(r, W - L), c) == rest * Pow2(W - L + c) by {
      CounterShiftOut(r, L, c);
    }
    CounterShiftDown(rest, L, c);
    assert Pow2(W) == 2 * Pow2(W - 1);
  }

  /**
   * Counter step, defined case: for 0 < logsize < W and a counter that is not
   * all ones, every shift stays below W, ~x is nonzero, and the update yields
   * the mirrored increment.
   */
  lemma MirroredStepAdvances(r: nat, logsize: nat)
    requires logsize < W && r < Pow2(logsize) - 1
    ensures r < Pow2(W)
    ensures MirroredStep(r, logsize) == Defined(MirrorInc(r, logsize))
  {
    assert logsize >= 1;
    CounterLeadingOnes(r, logsize);
    CounterShifts(r, logsize, LeadingOnes(r, logsize));
  }

  /** The powers of two that lines 39-43 combine, for a counter with c < L leading ones. */
  lemma CounterPowers(L: nat, c: nat)
    requires c < L < W
    ensures Pow2(L) * Pow2(W - L) == Pow2(W)
    ensures Pow2(L - c) * Pow2(W - L) == Pow2(W - c)
    ensures Pow2(L - c - 1) * Pow2(W - L) == Pow2(W - c - 1)
    ensures Pow2(W - c) * Pow2(c) == Pow2(W)
    ensures Pow2(W - L) * Pow2(c) == Pow2(W - L + c)
    ensures Pow2(L - c - 1) * Pow2(W - L + c) == Pow2(W - 1)
    ensures Pow2(W - c) == 2 * Pow2(W - c - 1) && Pow2(W) == 2 * Pow2(W - 1)
    ensures Pow2(W - c) <= Pow2(W) && Pow2(W - 1) < Pow2(W)
  {
    Pow2Add(L, W - L);
    Pow2Add(L - c, W - L);
    Pow2Add(L - c - 1, W - L);
    CounterPowersTop(L, c);
    CounterPowersHalves(c);
  }

  lemma CounterPowersTop(L: nat, c: nat)
    requires c < L < W
    ensures Pow2(W - c) * Pow2(c) == Pow2(W)
    ensures Pow2(W - L) * Pow2(c) == Pow2(W - L + c)
    ensures Pow2(L - c - 1) * Pow2(W - L + c) == Pow2(W - 1)
  {
    Pow2Add(W - c, c);
    Pow2Add(W - L, c);
    Pow2Add(L - c - 1, W - L + c);
  }

  lemma CounterPowersHalves(c: nat)
    requires c < W
    ensures Pow2(W - c) == 2 * Pow2(W - c - 1) && Pow2(W) == 2 * Pow2(W - 1)
    ensures Pow2(W - c) <= Pow2(W) && Pow2(W - 1) < Pow2(W)
  {
    if c > 0 { Pow2Monotone(W - c, W); }
    Pow2Monotone(W - 1, W);
  }

  /**
   * Counter step, undefined case: when the counter is all ones (which for
   * logsize == 0 is the counter 0) the update shifts by W, at line 39 when
   * logsize == 0 and at line 43 otherwise.
   */
  lemma MirroredStepAllOnes(logsize: nat)
    requires logsize < W
    ensures Pow2(logsize) - 1 < Pow2(W)
    ensures MirroredStep(Pow2(logsize) - 1, logsize) == UndefinedShift
  {
    Pow2Monotone(logsize, W);
    if logsize > 0 {
      var x := Shl(Pow2(logsize) - 1, W - logsize);
      assert Not(x) == Pow2(W - logsize) - 1 by {
        AllOnesShifted(logsize);
      }
      assert Clz(Not(x)) == logsize by {
        ClzLowOnes(logsize);
      }
    }
  }

  /** Lines 39-40 on the all-ones counter: ~(r << (W - L)) is the word of W - L low ones. */
  lemma AllOnesShifted(L: nat)
    requires 1 <= L < W
    ensures Pow2(L) - 1 < Pow2(W)
    ensures Not(Shl(Pow2(L) - 1, W - L)) == Pow2(W - L) - 1
  {
    Pow2Monotone(0, L);
    Pow2Monotone(L, W);
    Pow2Add(L, W - L);
    AllOnesArith(Pow2(L), Pow2(W - L), Pow2(W));
  }

  /** Integer part of AllOnesShifted: (2^L - 1) * 2^s == 2^W - 2^s, already below 2^W. */
  lemma AllOnesArith(pL: int, ps: int, pW: int)
    requires pL >= 2 && ps >= 1 && pL * ps == pW
    ensures 0 <= (pL - 1) * ps < pW && ((pL - 1) * ps) % pW == (pL - 1) * ps
    ensures pW - 1 - (pL - 1) * ps == ps - 1
  {
    MulDistribSub(pL, 1, ps);
    DivModUnique((pL - 1) * ps, pW, 0, (pL - 1) * ps);
  }

  /** A word of W - L low ones, 0 < L < W, has L leading zeros. */
  lemma ClzLowOnes(L: nat)
    requires 1 <= L < W
    ensures 0 < Pow2(W - L) - 1 < Pow2(W)
    ensures Clz(Pow2(W - L) - 1) == L
  {
    Pow2Monotone(W - L, W);
    assert Pow2(W - L) == 2 * Pow2(W - L - 1);
    ClzExact(Pow2(W - L) - 1, L);
  }

  /** The counter update fails exactly when the counter is all ones. */
  lemma MirroredStepDefinedIff(r: nat, logsize: nat)
    requires logsize < W && r < Pow2(logsize)
    ensures r < Pow2(W)
    ensures MirroredStep(r, logsize).UndefinedShift? <==> r == Pow2(logsize) - 1
  {
    if r == Pow2(logsize) - 1 {
      MirroredStepAllOnes(logsize);
    } else {
      MirroredStepAdvances(r, logsize);
    }
  }

  /**
   * The counter invariant of both loops: if the counter holds r(n) and n + 1
   * is still an index, the update leaves r(n + 1); after the last index the
   * update is undefined.
   */
  lemma CounterInvariant(n: nat, logsize: nat)
    requires logsize < W && n < Pow2(logsize)
    ensures Reverse(n, logsize) < Pow2(W)
    ensures n + 1 < Pow2(logsize) ==> MirroredStep(Reverse(n, logsize), logsize) == Defined(Reverse(n + 1, logsize))
    ensures n + 1 == Pow2(logsize) ==> MirroredStep(Reverse(n, logsize), logsize) == UndefinedShift
  {
    Pow2Monotone(logsize, W);
    ReverseAllOnes(logsize);
    if n + 1 < Pow2(logsize) {
      ReverseInjective(n, Pow2(logsize) - 1, logsize);
      ReverseSucc(n, logsize);
      MirroredStepAdvances(Reverse(n, logsize), logsize);
    } else {
      MirroredStepAllOnes(logsize);
    }
  }

  /**
   * On the last iteration of rader (n = 2^logsize - 1) the counter is r(n),
   * all ones, and its update is undefined, whatever logsize is.
   */
  lemma FinalCounterUpdateUndefined(logsize: nat)
    requires logsize < W
    ensures Reverse(Pow2(logsize) - 1, logsize) < Pow2(W)
    ensures MirroredStep(Reverse(Pow2(logsize) - 1, logsize), logsize) == UndefinedShift
  {
    ReverseAllOnes(logsize);
    MirroredStepAllOnes(logsize);
  }
}
