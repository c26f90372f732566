/**
 * The butterfly network of src/fft.c: DO_BUTTERFLY (lines 64-81) and fft_raw
 * (lines 83-105). Complex values are kept symbolic: each one is the
 * expression of FFT_COMPLEX_* operations that produced it, so the model
 * records exactly which additions, subtractions and products the C code
 * performs, and on which operands, without any floating-point arithmetic.
 */
module ButterflyNetwork {
  import opened Arith
  import opened MachineWord

  /**
   * A complex value, as the expression that computes it: a value the caller
   * supplied, FFT_COMPLEX_SETONE, FFT_COMPLEX_UNITROOT_RECIP for a step, or a
   * sum, difference or product.
   */
  datatype Complex =
    | Sample(id: nat)
    | One
    | UnitRootRecip(step: nat)
    | Add(Complex, Complex)
    | Sub(Complex, Complex)
    | Mul(Complex, Complex)

  /** One multiplied by `unit` i times, as FFT_COMPLEX_SELFMUL(root, unit) builds it. */
  function RootPower(unit: Complex, i: nat): (r: Complex)
    ensures i == 0 <==> r == One
  {
    if i == 0 then One else Mul(RootPower(unit, i - 1), unit)
  }

  /** The rotation applied to pair i of a block at stage `step`. */
  function Twiddle(step: nat, i: nat): Complex
  {
    RootPower(UnitRootRecip(step), i)
  }

  /** A stage of block length `step` can run on a buffer of length n. */
  predicate StepFits(step: nat, n: nat)
  {
    2 <= step && step % 2 == 0 && n % step == 0
  }

  /**
   * Element k after one stage: with o the offset of k in its block and h half
   * the step, the first half holds u + t and the second u - t, where u is the
   * old first-half element and t is Twiddle(step, i) times its partner.
   */
  function StageAt(s: seq<Complex>, step: nat, k: nat): Complex
    requires StepFits(step, |s|) && k < |s|
  {
    var half := step / 2;
    var offset := k % step;
    BlockFits(k, |s|, step);
    if offset < half then Add(s[k], Mul(Twiddle(step, offset), s[k + half]))
    else Sub(s[k - half], Mul(Twiddle(step, offset - half), s[k]))
  }

  /** The buffer after DO_BUTTERFLY(begin, end, step). */
  function Stage(s: seq<Complex>, step: nat): (r: seq<Complex>)
    requires StepFits(step, |s|)
    ensures |r| == |s|
  {
    seq(|s|, k requires 0 <= k < |s| => StageAt(s, step, k))
  }

  /** The combine of the recursive decimation-in-time transform: X[k] = E[k] + w^k O[k], X[k + h] = E[k] - w^k O[k]. */
  function Combine(e: seq<Complex>, o: seq<Complex>, step: nat): (r: seq<Complex>)
    requires |e| == |o| && step == 2 * |e|
    ensures |r| == step
  {
    var h := |e|;
    seq(step, k requires 0 <= k < step =>
      if k < h then Add(e[k], Mul(Twiddle(step, k), o[k]))
      else Sub(e[k - h], Mul(Twiddle(step, k - h), o[k - h])))
  }

  /** The steps fft_raw runs for a buffer of 2^L elements: 2, 4, ..., 2^L. */
  function Schedule(L: nat): (r: seq<nat>)
    ensures |r| == L
    ensures forall k | 0 <= k < L :: r[k] == Pow2(k + 1)
  {
    if L == 0 then [] else Schedule(L - 1) + [Pow2(L)]
  }

  /** Every step of the schedule is used once, and they increase strictly. */
  lemma ScheduleIncreasing(L: nat, i: nat, j: nat)
    requires i < j < L
    ensures Schedule(L)[i] < Schedule(L)[j]
  {
    Pow2Monotone(i + 1, j + 1);
  }

  /** Every step of Schedule(L) fits a buffer of 2^M elements when L <= M. */
  lemma ScheduleFits(L: nat, M: nat)
    requires L <= M
    ensures forall k | 0 <= k < L :: StepFits(Schedule(L)[k], Pow2(M))
  {
    forall k | 0 <= k < L ensures StepFits(Schedule(L)[k], Pow2(M)) {
      PowerStepFits(k + 1, M);
    }
  }

  /** A stage of step 2^j fits 2^M elements when 1 <= j <= M. */
  lemma PowerStepFits(j: nat, M: nat)
    requires 1 <= j <= M
    ensures StepFits(Pow2(j), Pow2(M))
  {
    Pow2Divides(j, M);
    Pow2Divides(1, j);
  }

  /** The buffer after the stages `steps`, in order. */
  function RunStages(s: seq<Complex>, steps: seq<nat>): (r: seq<Complex>)
    requires forall k | 0 <= k < |steps| :: StepFits(steps[k], |s|)
    ensures |r| == |s|
  {
    if steps == [] then s
    else Stage(RunStages(s, steps[..|steps| - 1]), steps[|steps| - 1])
  }

  /** Running one more stage after `steps`. */
  lemma RunStagesSnoc(s: seq<Complex>, steps: seq<nat>, step: nat)
    requires forall k | 0 <= k < |steps| :: StepFits(steps[k], |s|)
    requires StepFits(step, |s|)
    ensures forall k | 0 <= k < |steps + [step]| :: StepFits((steps + [step])[k], |s|)
    ensures RunStages(s, steps + [step]) == Stage(RunStages(s, steps), step)
  {
    assert (steps + [step])[..|steps|] == steps;
  }

  /** The whole network on 2^L elements. */
  function Butterflies(s: seq<Complex>, L: nat): (r: seq<Complex>)
    requires |s| == Pow2(L)
    ensures |r| == |s|
  {
    ScheduleFits(L, L);
    RunStages(s, Schedule(L))
  }

  /** Blocks are independent: a stage acts on two block-aligned parts separately. */
  lemma StageAppend(a: seq<Complex>, b: seq<Complex>, step: nat)
    requires StepFits(step, |a|) && StepFits(step, |b|)
    ensures StepFits(step, |a + b|)
    ensures Stage(a + b, step) == Stage(a, step) + Stage(b, step)
  {
    DivModUnique(|a + b|, step, |a| / step + |b| / step, 0);
    forall k | 0 <= k < |a + b| ensures Stage(a + b, step)[k] == (Stage(a, step) + Stage(b, step))[k] {
      StageAppendAt(a, b, step, k);
    }
  }

  /** StageAppend at one index. */
  lemma StageAppendAt(a: seq<Complex>, b: seq<Complex>, step: nat, k: nat)
    requires StepFits(step, |a|) && StepFits(step, |b|) && StepFits(step, |a + b|) && k < |a + b|
    ensures k < |a| ==> StageAt(a + b, step, k) == StageAt(a, step, k)
    ensures |a| <= k ==> StageAt(a + b, step, k) == StageAt(b, step, k - |a|)
  {
    BlockFits(k, |a + b|, step);
    if k < |a| {
      BlockFits(k, |a|, step);
    } else {
      ModShift(k, |a|, step);
      BlockFits(k - |a|, |b|, step);
    }
  }

  /** Stages of length dividing both parts act on the parts separately. */
  lemma {:induction false} RunStagesAppend(a: seq<Complex>, b: seq<Complex>, steps: seq<nat>)
    requires forall k | 0 <= k < |steps| :: StepFits(steps[k], |a|) && StepFits(steps[k], |b|)
    ensures forall k | 0 <= k < |steps| :: StepFits(steps[k], |a + b|)
    ensures RunStages(a + b, steps) == RunStages(a, steps) + RunStages(b, steps)
  {
    forall k | 0 <= k < |steps| ensures StepFits(steps[k], |a + b|) {
      StageAppend(a, b, steps[k]);
    }
    if steps != [] {
      var init := steps[..|steps| - 1];
      RunStagesAppend(a, b, init);
      StageAppend(RunStages(a, init), RunStages(b, init), steps[|steps| - 1]);
    }
  }

  /** A stage whose single block is the whole buffer is the recursive combine. */
  lemma StageSingleBlock(e: seq<Complex>, o: seq<Complex>, step: nat)
    requires |e| == |o| && step == 2 * |e| && step >= 2
    ensures StepFits(step, |e + o|)
    ensures Stage(e + o, step) == Combine(e, o, step)
  {
    DivModUnique(step, step, 1, 0);
    forall k | 0 <= k < step ensures Stage(e + o, step)[k] == Combine(e, o, step)[k] {
      SingleBlockAt(e, o, step, k);
    }
  }

  /** StageSingleBlock at one index. */
  lemma SingleBlockAt(e: seq<Complex>, o: seq<Complex>, step: nat, k: nat)
    requires |e| == |o| && step == 2 * |e| && StepFits(step, |e + o|) && k < step
    ensures StageAt(e + o, step, k) == Combine(e, o, step)[k]
  {
    ModBelow(k, step);
  }

  /**
   * The network on 2^L elements is the network on each half followed by the
   * combining stage of step 2^L: stage s combines what stage s / 2 produced.
   */
  lemma ButterfliesSplit(s: seq<Complex>, L: nat)
    requires L >= 1 && |s| == Pow2(L)
    ensures |s[..Pow2(L - 1)]| == Pow2(L - 1) && |s[Pow2(L - 1)..]| == Pow2(L - 1)
    ensures Butterflies(s, L)
         == Combine(Butterflies(s[..Pow2(L - 1)], L - 1), Butterflies(s[Pow2(L - 1)..], L - 1), Pow2(L))
  {
    var h := Pow2(L - 1);
    var lo, hi := s[..h], s[h..];
    assert s == lo + hi;
    var init := Schedule(L - 1);
    assert Schedule(L)[..L - 1] == init;
    ScheduleFits(L - 1, L - 1);
    RunStagesAppend(lo, hi, init);
    StageSingleBlock(RunStages(lo, init), RunStages(hi, init), Pow2(L));
  }

  /** Index k is final once its block lies before `base`, or it belongs to one of the first `done` pairs of the block at `base`. */
  predicate Combined(k: nat, base: nat, half: nat, done: nat)
  {
    k < base || (base <= k < base + done) || (base + half <= k < base + half + done)
  }

  /** The state of DO_BUTTERFLY before pair `done` of the block at `base`. */
  ghost predicate PairsDone(cur: seq<Complex>, orig: seq<Complex>, step: nat, base: nat, done: nat)
    requires StepFits(step, |orig|)
  {
    |cur| == |orig| &&
    forall k | 0 <= k < |orig| ::
      cur[k] == if Combined(k, base, step / 2, done) then StageAt(orig, step, k) else orig[k]
  }

  /** One pass of the inner loop (src/fft.c:71-79) combines pair i with pair i + step / 2. */
  lemma PairStep(cur: seq<Complex>, orig: seq<Complex>, step: nat, base: nat, i: nat)
    requires StepFits(step, |orig|) && base % step == 0 && base + step <= |orig| && i < step / 2
    requires PairsDone(cur, orig, step, base, i)
    ensures var a, b := base + i, base + i + step / 2;
      var t := Mul(Twiddle(step, i), cur[b]);
      PairsDone(cur[a := Add(cur[a], t)][b := Sub(cur[a], t)], orig, step, base, i + 1)
  {
    OffsetInBlock(base + i, base, step);
    OffsetInBlock(base + i + step / 2, base, step);
  }

  /** After the last pair of a block the next block starts. */
  lemma BlockStep(cur: seq<Complex>, orig: seq<Complex>, step: nat, base: nat)
    requires StepFits(step, |orig|)
    requires PairsDone(cur, orig, step, base, step / 2)
    ensures PairsDone(cur, orig, step, base + step, 0)
  {
    forall k | 0 <= k < |orig|
      ensures Combined(k, base, step / 2, step / 2) == Combined(k, base + step, step / 2, 0)
    {
    }
  }

  /**
   * The inner loop of DO_BUTTERFLY (src/fft.c:69-79) on the block at `base`:
   * root starts at one, pair i gets t = root * p[j] with root the i-th power
   * of unit, then p[i] := u + t and p[j] := u - t with u the old p[i].
   */
  method CombineBlock(x: array<Complex>, base: nat, step: nat, unit: Complex, ghost orig: seq<Complex>)
    requires StepFits(step, |orig|) && x.Length == |orig| && base % step == 0 && base < x.Length
    requires unit == UnitRootRecip(step)
    requires PairsDone(x[..], orig, step, base, 0)
    modifies x
    ensures PairsDone(x[..], orig, step, base + step, 0)
  {
    BlockFits(base, x.Length, step);
    var halfStep := step / 2;
    var root := One;
    var i, j := 0, halfStep;
    while i < halfStep
      invariant i <= halfStep && j == i + halfStep
      invariant root == Twiddle(step, i)
      invariant PairsDone(x[..], orig, step, base, i)
    {
      PairStep(x[..], orig, step, base, i);
      var t := Mul(root, x[base + j]);
      root := Mul(root, unit);
      var u := x[base + i];
      x[base + i] := Add(u, t);
      x[base + j] := Sub(u, t);
      i, j := i + 1, j + 1;
    }
    BlockStep(x[..], orig, step, base);
  }

  /** DO_BUTTERFLY(begin, end, step) over the whole buffer: every block of length `step`, in order. */
  method DoButterfly(x: array<Complex>, step: nat)
    requires StepFits(step, x.Length)
    modifies x
    ensures x[..] == Stage(old(x[..]), step)
  {
    ghost var orig := x[..];
    var unit := UnitRootRecip(step);
    var base := 0;
    ModBelow(0, step);
    while base != x.Length
      invariant base <= x.Length && base % step == 0
      invariant PairsDone(x[..], orig, step, base, 0)
      decreases x.Length - base
    {
      BlockFits(base, x.Length, step);
      CombineBlock(x, base, step, unit, orig);
      ModShift(base + step, step, step);
      ModBelow(0, step);
      base := base + step;
    }
    assert forall k | 0 <= k < |orig| :: x[..][k] == StageAt(orig, step, k);
  }

  /** `step *= 2` on a size_t: doubling 2^k gives 2^(k + 1) below the word width. */
  lemma DoubleStep(k: nat)
    requires k + 1 < W
    ensures Pow2(k) < Pow2(W)
    ensures MulWord(Pow2(k), 2) == Pow2(k + 1)
  {
    Pow2Monotone(k, W);
    Pow2Monotone(k + 1, W);
    ModBelow(Pow2(k + 1), Pow2(W));
  }

  /**
   * fft_raw as written at logsize = W - 1: the last step is 2^(W-1), and
   * `step *= 2` wraps it to 0. Then `step <= (size_t)1 << logsize` still
   * holds, so the loop goes on, with a step that no block pass can use.
   */
  lemma StepWrapsAtTop()
    ensures Pow2(W - 1) < Pow2(W)
    ensures MulWord(Pow2(W - 1), 2) == 0
    ensures MulWord(Pow2(W - 1), 2) <= Shl(1, W - 1)
    ensures !StepFits(MulWord(Pow2(W - 1), 2), Pow2(W - 1))
  {
    Pow2Monotone(W - 1, W);
    DivModUnique(Pow2(W - 1) * 2, Pow2(W), 1, 0);
  }

  /**
   * fft_raw (src/fft.c:83-105): nothing for logsize 0, then the stages of
   * step 2 and 4 (stopping after the first when logsize is 1 and after the
   * second when it is 2), then the generic loop from step 8 while step <=
   * 2^logsize. The ghost `steps` logs each DO_BUTTERFLY in the order it
   * runs: exactly the schedule 2, 4, ..., 2^logsize, whose stages in that
   * order make up the network.
   */
  method FftRaw(x: array<Complex>, logsize: nat) returns (ghost steps: seq<nat>)
    requires logsize + 1 < W && x.Length == Pow2(logsize)
    modifies x
    ensures steps == Schedule(logsize)
    ensures x[..] == Butterflies(old(x[..]), logsize)
  {
    steps := [];
    if logsize == 0 {
      return;
    }
    ghost var orig := x[..];
    ScheduleFits(logsize, logsize);
    DoButterfly(x, 2);
    RunStagesSnoc(orig, steps, 2);
    steps := steps + [2];
    if logsize == 1 {
      return;
    }
    DoButterfly(x, 4);
    RunStagesSnoc(orig, steps, 4);
    steps := steps + [4];
    if logsize == 2 {
      return;
    }
    ShlOne(logsize);
    ScheduleFits(2, logsize);
    var step := 8;
    ghost var k := 3;
    while step <= Shl(1, logsize)
      invariant 3 <= k <= logsize + 1 && step == Pow2(k)
      invariant steps == Schedule(k - 1)
      invariant forall i | 0 <= i < |steps| :: StepFits(steps[i], |orig|)
      invariant x[..] == RunStages(orig, steps)
      decreases logsize + 1 - k
    {
      assert k <= logsize by {
        if k > logsize { Pow2Monotone(logsize, k); }
      }
      PowerStepFits(k, logsize);
      DoButterfly(x, step);
      RunStagesSnoc(orig, steps, step);
      steps := steps + [step];
      DoubleStep(k);
      step := MulWord(step, 2);
      k := k + 1;
    }
    if k <= logsize {
      if k < logsize { Pow2Monotone(k, logsize); }
    }
  }
}
