/**
 * The entry points of src/fft.c (lines 107-115): the bit-reversal pass,
 * then the butterfly network, into a second buffer or in place.
 */
module Driver {
  import opened Arith
  import opened MachineWord
  import opened BitReversal
  import opened Permutation
  import opened ButterflyNetwork

  /** What both entry points leave: the network run on the bit-reversed samples. */
  function Transform(x: seq<Complex>, logsize: nat): (r: seq<Complex>)
    requires |x| == Pow2(logsize)
    ensures |r| == |x|
  {
    Butterflies(BitReverse(x, logsize), logsize)
  }

  /** The samples at even indices. */
  function Evens(x: seq<Complex>): (r: seq<Complex>)
    requires |x| % 2 == 0
    ensures 2 * |r| == |x| && forall k | 0 <= k < |r| :: r[k] == x[2 * k]
  {
    seq(|x| / 2, k requires 0 <= k < |x| / 2 => x[2 * k])
  }

  /** The samples at odd indices. */
  function Odds(x: seq<Complex>): (r: seq<Complex>)
    requires |x| % 2 == 0
    ensures 2 * |r| == |x| && forall k | 0 <= k < |r| :: r[k] == x[2 * k + 1]
  {
    seq(|x| / 2, k requires 0 <= k < |x| / 2 => x[2 * k + 1])
  }

  /**
   * The textbook radix-2 decimation-in-time transform, defined by recursion
   * on the even and odd samples rather than by stages and a permutation.
   */
  function RecursiveDft(x: seq<Complex>, L: nat): (r: seq<Complex>)
    requires |x| == Pow2(L)
    ensures |r| == |x|
    decreases L
  {
    if L == 0 then x
    else Combine(RecursiveDft(Evens(x), L - 1), RecursiveDft(Odds(x), L - 1), Pow2(L))
  }

  /** The first half of the bit-reversed arrangement holds the even samples, reversed on L - 1 bits, and the second half the odd ones. */
  lemma BitReverseHalves(x: seq<Complex>, L: nat)
    requires L >= 1 && |x| == Pow2(L)
    ensures |x| % 2 == 0
    ensures BitReverse(x, L)[..Pow2(L - 1)] == BitReverse(Evens(x), L - 1)
    ensures BitReverse(x, L)[Pow2(L - 1)..] == BitReverse(Odds(x), L - 1)
  {
    var h := Pow2(L - 1);
    var br := BitReverse(x, L);
    var ev, od := BitReverse(Evens(x), L - 1), BitReverse(Odds(x), L - 1);
    forall k | 0 <= k < h ensures br[k] == ev[k] {
      BitReverseLowHalf(x, L, k);
    }
    forall k | h <= k < 2 * h ensures br[k] == od[k - h] {
      BitReverseHighHalf(x, L, k);
    }
    assert br[..h] == ev;
    assert br[h..] == od;
  }

  /** BitReverseHalves at an index k of the first half: r(k) on L bits is twice r(k) on L - 1 bits. */
  lemma BitReverseLowHalf(x: seq<Complex>, L: nat, k: nat)
    requires L >= 1 && |x| == Pow2(L) && k < Pow2(L - 1)
    ensures |x| % 2 == 0
    ensures BitReverse(x, L)[k] == BitReverse(Evens(x), L - 1)[k]
  {
    var m := Reverse(k, L - 1);
    assert Reverse(k, L) == 2 * m by {
      ReverseTopBit(k, L);
    }
    assert BitReverse(x, L)[k] == x[2 * m];
    var ev := Evens(x);
    assert |ev| == Pow2(L - 1) && m < |ev|;
    assert BitReverse(ev, L - 1)[k] == ev[m];
  }

  /** BitReverseHalves at an index k of the second half: r(k) on L bits is twice r(k - 2^(L-1)) on L - 1 bits, plus one. */
  lemma BitReverseHighHalf(x: seq<Complex>, L: nat, k: nat)
    requires L >= 1 && |x| == Pow2(L) && Pow2(L - 1) <= k < Pow2(L)
    ensures |x| % 2 == 0
    ensures BitReverse(x, L)[k] == BitReverse(Odds(x), L - 1)[k - Pow2(L - 1)]
  {
    var m := Reverse(k - Pow2(L - 1), L - 1);
    assert Reverse(k, L) == 2 * m + 1 by {
      ReverseTopBit(k, L);
    }
    assert BitReverse(x, L)[k] == x[2 * m + 1];
    var od := Odds(x);
    assert |od| == Pow2(L - 1) && m < |od|;
    assert BitReverse(od, L - 1)[k - Pow2(L - 1)] == od[m];
  }

  /**
   * Permuting, then running the stages 2, 4, ..., 2^L in place computes
   * exactly the recursive decimation-in-time transform, operation for
   * operation.
   */
  lemma {:induction false} TransformIsRecursiveDft(x: seq<Complex>, L: nat)
    requires |x| == Pow2(L)
    ensures Transform(x, L) == RecursiveDft(x, L)
    decreases L
  {
    if L > 0 {
      var h := Pow2(L - 1);
      var br := BitReverse(x, L);
      ButterfliesSplit(br, L);
      BitReverseHalves(x, L);
      TransformIsRecursiveDft(Evens(x), L - 1);
      TransformIsRecursiveDft(Odds(x), L - 1);
    } else {
      ReverseZero(0);
      assert BitReverse(x, 0)[0] == x[0];
    }
  }

  /** A single sample is its own transform. */
  lemma TransformSingleSample(a: Complex)
    ensures Pow2(0) == 1
    ensures Transform([a], 0) == [a]
  {
    ReverseZero(0);
    assert BitReverse([a], 0)[0] == a;
  }

  /** Two samples: one add/subtract pair whose rotation is One. */
  lemma TransformPair(a: Complex, b: Complex)
    ensures Pow2(1) == 2
    ensures Transform([a, b], 1) == [Add(a, Mul(One, b)), Sub(a, Mul(One, b))]
  {
    TransformIsRecursiveDft([a, b], 1);
    RecursiveDftPair(a, b);
  }

  lemma RecursiveDftPair(a: Complex, b: Complex)
    ensures Pow2(1) == 2
    ensures RecursiveDft([a, b], 1) == [Add(a, Mul(One, b)), Sub(a, Mul(One, b))]
  {
    assert Evens([a, b]) == [a];
    assert Odds([a, b]) == [b];
    var c := Combine([a], [b], 2);
    assert c[0] == Add(a, Mul(Twiddle(2, 0), b));
    assert c[1] == Sub(a, Mul(Twiddle(2, 0), b));
  }

  /**
   * fft (src/fft.c:107-110) as written: `rader` copies x into X in
   * bit-reversed order, then the network runs on X. The restrict qualifiers
   * become x != X; x is left as it was. The ghost result is where `rader`
   * performs its undefined counter update: after the last copy, for every
   * logsize.
   */
  method Fft(x: array<Complex>, X: array<Complex>, logsize: nat) returns (ghost undefinedAt: Option<nat>)
    requires logsize + 1 < W && x.Length == Pow2(logsize) && X.Length == x.Length
    requires x != X
    modifies X
    ensures x[..] == old(x[..])
    ensures X[..] == Transform(x[..], logsize)
    ensures undefinedAt == Some(x.Length - 1)
  {
    undefinedAt := Rader(x, X, logsize);
    ghost var steps := FftRaw(X, logsize);
  }

  /** fft with the corrected copying pass, which never shifts by the word width. */
  method FftGuarded(x: array<Complex>, X: array<Complex>, logsize: nat)
    requires logsize + 1 < W && x.Length == Pow2(logsize) && X.Length == x.Length
    requires x != X
    modifies X
    ensures x[..] == old(x[..])
    ensures X[..] == Transform(x[..], logsize)
  {
    RaderGuarded(x, X, logsize);
    ghost var steps := FftRaw(X, logsize);
  }

  /** fft_inplace (src/fft.c:112-115): permute x in place, then run the network on it. */
  method FftInPlace(x: array<Complex>, logsize: nat)
    requires logsize + 1 < W && x.Length == Pow2(logsize)
    modifies x
    ensures x[..] == Transform(old(x[..]), logsize)
  {
    RaderInPlace(x, logsize);
    ghost var steps := FftRaw(x, logsize);
  }

  /**
   * The two modes agree: fft into a fresh buffer and fft_inplace on a copy
   * of x produce the same values, and x itself is not changed.
   */
  method ModesAgree(x: array<Complex>, logsize: nat) returns (copied: seq<Complex>, inPlace: seq<Complex>)
    requires logsize + 1 < W && x.Length == Pow2(logsize)
    ensures copied == inPlace
    ensures copied == RecursiveDft(x[..], logsize)
  {
    var X := new Complex[x.Length];
    var y := new Complex[x.Length](k requires 0 <= k < x.Length reads x => x[k]);
    assert y[..] == x[..];
    ghost var undefinedAt := Fft(x, X, logsize);
    FftInPlace(y, logsize);
    copied, inPlace := X[..], y[..];
    TransformIsRecursiveDft(x[..], logsize);
  }
}
