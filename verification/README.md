# Radix-2 FFT core of kevin0x0/fft, modelled in Dafny

`src/fft.c` computes an unscaled forward discrete Fourier transform of 2^logsize
complex samples in two passes:

- a bit-reversal permutation, either copying (`rader`) or swapping in place
  (`rader_inplace`). It steps the reversed index r(n) to r(n + 1) with a
  "mirrored increment" built from shifts and a count-leading-zeros;
- the iterative Cooley-Tukey butterfly network (`DO_BUTTERFLY`, `fft_raw`),
  which runs stages of step 2, 4, ..., 2^logsize.

`fft` and `fft_inplace` chain the two passes.

The model has these modules:

| file | module | what it holds |
|---|---|---|
| `arith.dfy` | `Arith` | powers of two, and the division facts behind the word reasoning |
| `word.dfy` | `MachineWord` | `size_t` as a natural below 2^W, with W = `sizeof (size_t) * CHAR_BIT` = 64. It has C's `<<`, `>>`, `~`, `\|` and wrapping `*`, plus `fft_clz` |
| `bitreverse.dfy` | `BitReversal` | r(n); the counter update of lines 39-43 / 56-60, which yields `UndefinedShift` wherever C leaves a shift undefined; its proofs |
| `permutation.dfy` | `Permutation` | `rader` and `rader_inplace` as methods on arrays, specified by the bit-reversed arrangement `BitReverse` |
| `butterfly.dfy` | `ButterflyNetwork` | `DO_BUTTERFLY` and `fft_raw` as methods on an array of symbolic complex values, specified stage by stage |
| `driver.dfy` | `Driver` | `fft`, `fft_inplace`, the agreement of the two modes, and the equality with the recursive decimation-in-time transform |

Complex values are symbolic: the datatype `Complex` records the expression of
`FFT_COMPLEX_*` operations that produced a value. The operations are one,
the reciprocal unit root of a step, add, subtract and multiply. The model
therefore states which products, sums and differences the code forms, on
which operands and in which order, without floating point. On that basis it
proves:

- permuting and then running the network equals the textbook recursive
  transform, `X = Combine(FFT(evens), FFT(odds))`;
- the result is operation for operation the same expression
  (`Driver.TransformIsRecursiveDft`).

`fft_raw` returns at once when logsize is 0, but `fft` calls `rader` before
that, and `rader` then performs a shift by the word width. `Driver.Fft` calls
`rader` as written and reports that undefined shift (see Findings).

## Model

| member | source | states |
|---|---|---|
| MachineWord.Shl | src/fft.c:39 | `x << k` for k < W is x·2^k reduced modulo 2^W: always a word |
| MachineWord.Shr | src/fft.c:43 | `x >> k` for k < W drops the k low bits: the result fits in W - k bits |
| MachineWord.ShrBit | src/fft.c:43 | bit i of `x >> k` is bit i + k of x |
| MachineWord.Not | src/fft.c:40 | `~x` is a word, and it is zero exactly when x is the all-ones word, the one input `fft_clz` cannot take |
| MachineWord.NotBit | src/fft.c:40 | each of the W bits of `~x` is the flipped bit of x |
| MachineWord.Or | src/fft.c:42 | `a \| b` is at least each operand and at most their sum |
| MachineWord.OrBit | src/fft.c:42 | each bit of `a \| b` is set exactly when it is set in a or in b |
| MachineWord.MulWord | src/fft.c:102 | `step *= 2` on size_t wraps modulo 2^W: always a word |
| MachineWord.Clz | src/fft.c:8-12 | `fft_clz` of a nonzero word: c < W with 2^(W-1-c) <= x < 2^(W-c), so bit W-1-c is the highest set bit |
| MachineWord.ClzExact | src/fft.c:8-12 | a word in [2^(W-1-c), 2^(W-c)) has exactly c leading zeros |
| MachineWord.ShlOne | src/fft.c:33 | `(size_t)1 << k` is 2^k for k < W |
| MachineWord.OrHighBit | src/fft.c:42 | OR-ing a bit above every set bit of x adds it |
| BitReversal.Reverse | src/fft.c:35-36 | r(n), the low L bits of n reversed, is below 2^L |
| BitReversal.ReverseTopBit | src/fft.c:35-36 | r(n) read from the top bit: twice r of the rest, plus one exactly when the top bit of n is set |
| BitReversal.ReverseInvolution | src/fft.c:50-53 | r(r(n)) = n on [0, 2^L) |
| BitReversal.ReverseInjective | src/fft.c:36 | distinct indices have distinct r, so no target slot is written twice |
| BitReversal.ReverseZero | src/fft.c:35 | r(0) = 0, the start value of the counter in `rader` |
| BitReversal.ReverseAllOnes | src/fft.c:50 | r(2^L - 1) = 2^L - 1: the last index is a fixed point |
| BitReversal.CounterStart | src/fft.c:48-51 | size = 1 << L is 2^L, and `size >> 1`, the counter start in `rader_inplace`, is r(1) |
| BitReversal.MirrorInc | src/fft.c:38-43 | the increment carried from the most significant bit stays an L-bit value |
| BitReversal.ReverseSucc | src/fft.c:38-43 | r(n + 1) is the mirrored increment of r(n) for n + 1 < 2^L |
| BitReversal.MirroredStep | src/fft.c:39-43 | the counter update of lines 39-43 (and 56-60) on a word: undefined wherever a shift reaches W or `fft_clz` gets 0, and otherwise the new counter is below 2^logsize, so the next `target[reversed_n]` stays inside the buffer |
| BitReversal.LeadingOnesSplit | src/fft.c:40-41 | a counter that is not all ones is c < L leading ones, a zero, and a remainder below it; the mirrored increment clears the ones and sets the zero |
| BitReversal.CounterLeadingOnes | src/fft.c:39-40 | after `reversed_n <<= shift`, `~reversed_n` is nonzero and `fft_clz` of it is the counter's count of leading ones |
| BitReversal.CounterShiftOut | src/fft.c:39-41 | shifting up by W - L, then by the count of leading ones, drops the ones and leaves the remainder at the top, with no wrap |
| BitReversal.CounterShiftDown | src/fft.c:42-43 | setting the top bit and shifting down by shift + count yields remainder + 2^(L-c-1) |
| BitReversal.TopBitArith | src/fft.c:42-43 | the integer fact behind CounterShiftDown: the remainder stays below the top bit, and the division lands on remainder + 2^(L-c-1) |
| BitReversal.CounterShifts | src/fft.c:41-43 | lines 41-43 compute exactly the mirrored increment, and the value stays a word |
| BitReversal.MirroredStepAdvances | src/fft.c:39-43 | for 0 < L < W and a counter that is not all ones, every shift of the update is below W and the update yields the mirrored increment |
| BitReversal.MirroredStepAllOnes | src/fft.c:39-43 | the update of the all-ones counter is `UndefinedShift` for every logsize < W, L = 0 included (the doc comment and the proof locate the shift: line 39 when L = 0, line 43 otherwise) |
| BitReversal.MirroredStepDefinedIff | src/fft.c:39-43 | the update is undefined if and only if the counter is all ones |
| BitReversal.CounterInvariant | src/fft.c:35-43 | with the counter at r(n), the update gives r(n + 1) while n + 1 < 2^L, and is undefined at n = 2^L - 1 |
| BitReversal.FinalCounterUpdateUndefined | src/fft.c:43 | the update after the last copy of `rader` shifts by W, for every logsize |
| Permutation.BitReverseMoves | src/fft.c:36 | in the bit-reversed arrangement, the element from index n sits at r(n) |
| Permutation.BitReverseInvolutive | src/fft.c:47-62 | applying the arrangement twice restores the buffer |
| Permutation.BitReverseUnique | src/fft.c:35-36 | a buffer that holds s[n] at r(n) for every n is the bit-reversed arrangement |
| Permutation.Rader | src/fft.c:32-45 | `rader` as written leaves target = BitReverse(source). The first undefined counter update is at the last iteration, n = size - 1 |
| Permutation.RaderGuarded | src/fft.c:32-45 | the copying pass with the counter advanced only while an index follows: target = BitReverse(source), and no shift reaches W |
| Permutation.SwapStep | src/fft.c:52-53 | one conditional swap moves the partial arrangement from "indices or partners below n placed" to "below n + 1" |
| Permutation.SwapStart | src/fft.c:51 | before the first iteration only index 0 is placed, and it is a fixed point |
| Permutation.SwapDone | src/fft.c:50-51 | stopping at n = size - 1 (or at 1 when size is 1) leaves the full arrangement, because the last index is a fixed point |
| Permutation.SwapIfBelow | src/fft.c:52-53 | array[n] and array[r(n)] trade places only when n < r(n), and both still hold their original elements then, so each pair is swapped once; nothing moves when n >= r(n) |
| Permutation.AdvanceCounter | src/fft.c:55-60 | the in-place counter update maps r(n) to r(n + 1), with every shift below W |
| Permutation.InPlaceIteration | src/fft.c:52-60 | one loop pass keeps the partial arrangement invariant and advances the counter |
| Permutation.RaderInPlace | src/fft.c:47-62 | `rader_inplace` leaves array = BitReverse(old array) |
| ButterflyNetwork.RootPower | src/fft.c:70-74 | the running root at pair i: `FFT_COMPLEX_SETONE` followed by i `FFT_COMPLEX_SELFMUL`s by unit. Its ensures only says the root is One exactly before the first multiplication; CombineBlock's loop invariant `root == Twiddle(step, i)` is what ties the loop's root to it |
| ButterflyNetwork.Schedule | src/fft.c:91-103 | the steps of `fft_raw` for 2^L samples: L of them, the k-th being 2^(k+1) |
| ButterflyNetwork.ScheduleIncreasing | src/fft.c:91-103 | the steps strictly increase, so each runs once and in increasing order |
| ButterflyNetwork.PowerStepFits | src/fft.c:88-103 | each step 2^j with 1 <= j <= L is even and divides the buffer length |
| ButterflyNetwork.RunStagesSnoc | src/fft.c:102-103 | running one more stage after a list of stages |
| ButterflyNetwork.StageAppend | src/fft.c:68-80 | blocks are independent: a stage acts on two block-aligned parts separately |
| ButterflyNetwork.RunStagesAppend | src/fft.c:83-105 | stages whose step divides both parts act on the parts separately |
| ButterflyNetwork.StageSingleBlock | src/fft.c:64-81 | a stage whose one block is the whole buffer forms E[k] + w^k·O[k] and E[k] - w^k·O[k] |
| ButterflyNetwork.ButterfliesSplit | src/fft.c:83-105 | the network on 2^L samples is the network on each half, then the combining stage of step 2^L |
| ButterflyNetwork.PairStep | src/fft.c:71-79 | pair i of a block becomes u + t and u - t, with u the old p[i] and t = root_i · old p[j], j = i + step/2 |
| ButterflyNetwork.BlockStep | src/fft.c:68 | once all step/2 pairs of a block are done, the next block starts |
| ButterflyNetwork.CombineBlock | src/fft.c:69-79 | the inner loop combines every pair of the block at p. Root resets to One per block and is multiplied by unit after t is formed; every access stays inside the buffer |
| ButterflyNetwork.DoButterfly | src/fft.c:64-81 | `DO_BUTTERFLY(begin, end, step)` leaves Stage(old buffer, step) |
| ButterflyNetwork.DoubleStep | src/fft.c:102 | `step *= 2` doubles 2^k exactly while k + 1 < W |
| ButterflyNetwork.StepWrapsAtTop | src/fft.c:102 | at logsize = W - 1, doubling the last step 2^(W-1) wraps to 0. The loop test `step <= (size_t)1 << logsize` still holds, and step 0 is no valid block length, so the loop does not end |
| ButterflyNetwork.FftRaw | src/fft.c:83-105 | `fft_raw` runs DO_BUTTERFLY exactly for steps 2, 4, ..., 2^logsize, in order, and nothing for logsize 0. The special-cased 2 and 4 and the early returns match the generic loop |
| Driver.BitReverseHalves | src/fft.c:107-115 | the first half of the bit-reversed arrangement is the even samples reversed on L - 1 bits, and the second half the odd ones |
| Driver.TransformIsRecursiveDft | src/fft.c:107-115 | permuting, then running the network, equals the recursive decimation-in-time transform |
| Driver.TransformSingleSample | src/fft.c:84-85 | one sample is its own transform |
| Driver.TransformPair | src/fft.c:91-94 | two samples give a + 1·b and a - 1·b |
| Driver.Fft | src/fft.c:107-110 | `fft` as written leaves X = Transform(x) and does not change x; restrict becomes x != X. Its `rader` performs an undefined shift after the last copy, at n = size - 1, for every logsize |
| Driver.FftGuarded | src/fft.c:107-110 | `fft` with the corrected copying pass: the same X = Transform(x), with no undefined shift |
| Driver.FftInPlace | src/fft.c:112-115 | `fft_inplace` leaves x = Transform(old x) |
| Driver.ModesAgree | src/fft.c:107-115 | `fft` into a fresh buffer and `fft_inplace` on a copy give the same values, equal to the recursive transform |

## Left out

- Floating point. The `FFT_COMPLEX_*` macros and `fft_complex_t` live in `src/fft.h`, which is not part of this model.
  - They become uninterpreted constructors of `Complex`.
  - `FFT_COMPLEX_MUL(t, a, b)` is read as t = a·b, `FFT_COMPLEX_SELFMUL(root, unit)` as root = root·unit, and `FFT_COMPLEX_UNITROOT_RECIP(unit, step)` as a value depending only on the step.
  - Numeric claims need real arithmetic and exact roots of unity, which the code computes in rounded doubles. So the model states no DFT values, linearity, energy scaling or specific results such as the 8-sample demonstration.
- `test/test.c`: a demonstration that fills a buffer and prints it; I/O only.
- The non-GCC `fft_clz` fallback (src/fft.c:18-28) is not modelled. Only the `__builtin_clz` branch is (`MachineWord.Clz`). The fallback is broken as written:
  - `half >> 1` at line 26 discards its result, so the loop does not end while `half` is nonzero;
  - the function has no `return`.
- `likely`/`unlikely` only hint the compiler and have no effect on results.
- Only an LP64 target is modelled: W is fixed at 64, the width of a 64-bit `size_t`, where `fft_clz` dispatches to `__builtin_clzl`. Targets with a 32-bit `size_t`, where it dispatches to `__builtin_clz` (src/fft.c:10), are not covered.
- `restrict` is modelled only as the precondition x != X of `Driver.Fft`.
- Pointers `begin`, `end` and `p` are modelled as offsets into the array. Pointer overflow and the bound of the address space are not modelled, and buffer lengths are unbounded naturals.
- MirroredStep: a shift by W or more, and `fft_clz(0)`, yield `UndefinedShift` instead of any machine-specific value, because C leaves them undefined. `Permutation.Rader` records where this happens. It does not model the counter's value afterwards, which is never read.
- ButterflyNetwork.FftRaw: requires logsize + 1 < W, which is stronger than the logsize < W the code accepts. At logsize = W - 1, `step *= 2` wraps 2^(W-1) to 0 (`ButterflyNetwork.StepWrapsAtTop`), so `step <= size` stays true and the loop does not end. A buffer of 2^63 complex values cannot exist, so this is out of reach in practice.
- Driver.Fft: requires logsize + 1 < W, inherited from FftRaw.
- Driver.FftGuarded: requires logsize + 1 < W, inherited from FftRaw.
- Driver.FftInPlace: requires logsize + 1 < W, inherited from FftRaw.
- Permutation.SwapIfBelow states "each pair is swapped once" per iteration. It does not keep a log of all swaps made over the whole loop.

## Findings

| source | as written | input that shows it | evidently intended | confidence | as-written member | corrected member |
|---|---|---|---|---|---|---|
| src/fft.c:35-43 | `rader` advances the counter after every copy, including the last one. There the counter is all ones: line 43 shifts right by shift + count_leading_ones = W, and when logsize = 0 line 39 already shifts left by W. Both are undefined behaviour in C. `fft` reaches this for every logsize, including 0, where `fft_raw` would have returned at once | logsize = 3, n = 7, reversed_n = 7: shift = 61, `~(7 << 61)` has 3 leading zeros, and line 43 shifts by 61 + 3 = 64 | advance the counter only while another index follows (as `rader_inplace` does by stopping at size - 1) | not executed | Permutation.Rader, BitReversal.FinalCounterUpdateUndefined, Driver.Fft | Permutation.RaderGuarded, Driver.FftGuarded |
| src/fft.c:102 | `fft_raw` doubles `step` after each stage and tests `step <= (size_t)1 << logsize`. At logsize = W - 1 the last step 2^(W-1) doubles to 0 modulo 2^W, and 0 passes the test, so the loop does not end. `DO_BUTTERFLY` with step 0 never advances `p` | logsize = 63 on a 64-bit size_t: after the stage of step 2^63, `step *= 2` gives 0 | stop after the stage of step 2^logsize, which is what the precondition logsize + 1 < W guarantees | not executed; a buffer of 2^63 elements cannot be allocated in practice | ButterflyNetwork.StepWrapsAtTop | ButterflyNetwork.FftRaw |
