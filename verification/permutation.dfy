/**
 * The two bit-reversal passes of src/fft.c: `rader` (copying) and
 * `rader_inplace` (swapping), over an arbitrary element type.
 */
module Permutation {
  import opened Arith
  import opened MachineWord
  import opened BitReversal

  datatype Option<T> = None | Some(value: T)

  /** The bit-reversed arrangement of s: index k holds the element from index r(k). */
  function BitReverse<T>(s: seq<T>, logsize: nat): (r: seq<T>)
    requires |s| == Pow2(logsize)
    ensures |r| == |s|
  {
    seq(|s|, k requires 0 <= k < |s| => s[Reverse(k, logsize)])
  }

  /** The element at index n moves to index r(n). */
  lemma BitReverseMoves<T>(s: seq<T>, logsize: nat, n: nat)
    requires |s| == Pow2(logsize) && n < |s|
    ensures BitReverse(s, logsize)[Reverse(n, logsize)] == s[n]
  {
    ReverseInvolution(n, logsize);
  }

  /** Reversing twice restores the original arrangement. */
  lemma BitReverseInvolutive<T>(s: seq<T>, logsize: nat)
    requires |s| == Pow2(logsize)
    ensures BitReverse(BitReverse(s, logsize), logsize) == s
  {
    var once := BitReverse(s, logsize);
    var twice := BitReverse(once, logsize);
    forall k | 0 <= k < |s| ensures twice[k] == s[k] {
      ReverseInvolution(k, logsize);
      assert twice[Reverse(Reverse(k, logsize), logsize)] == once[Reverse(k, logsize)];
    }
  }

  /** The arrangement is determined by where each element goes. */
  lemma BitReverseUnique<T>(s: seq<T>, t: seq<T>, logsize: nat)
    requires |s| == Pow2(logsize) && |t| == |s|
    requires forall n | 0 <= n < |s| :: t[Reverse(n, logsize)] == s[n]
    ensures t == BitReverse(s, logsize)
  {
    forall k | 0 <= k < |s| ensures t[k] == BitReverse(s, logsize)[k] {
      ReverseInvolution(k, logsize);
      assert t[Reverse(Reverse(k, logsize), logsize)] == s[Reverse(k, logsize)];
    }
  }

  /**
   * rader (src/fft.c:32-45) as written. It copies source[n] to
   * target[r(n)] for n = 0 .. 2^logsize - 1 and advances the counter after
   * every copy, the last one included. The ghost result records the first
   * iteration whose counter update was undefined: always the last one.
   */
  method Rader<T>(source: array<T>, target: array<T>, logsize: nat) returns (ghost undefinedAt: Option<nat>)
    requires logsize < W && source.Length == Pow2(logsize) && target.Length == source.Length
    requires source != target
    modifies target
    ensures target[..] == BitReverse(source[..], logsize)
    ensures undefinedAt == Some(source.Length - 1)
  {
    ShlOne(logsize);
    var size := Shl(1, logsize);
    var n, reversed := 0, 0;
    ReverseZero(logsize);
    undefinedAt := None;
    while n < size
      invariant n <= size
      invariant n < size ==> reversed == Reverse(n, logsize) && undefinedAt == None
      invariant n == size ==> undefinedAt == Some(size - 1)
      invariant forall k | 0 <= k < n :: target[Reverse(k, logsize)] == source[k]
    {
      target[reversed] := source[n];
      forall k | 0 <= k < n ensures Reverse(k, logsize) != reversed {
        ReverseInjective(k, n, logsize);
      }
      CounterInvariant(n, logsize);
      var step := MirroredStep(reversed, logsize);
      if step.Defined? {
        reversed := step.value;
      } else {
        // the shift is undefined behaviour in C; the model does not track the
        // counter afterwards, and nothing reads it again
        undefinedAt := Some(n);
      }
      n := n + 1;
    }
    BitReverseUnique(source[..], target[..], logsize);
  }

  /**
   * rader with the counter advanced only while another index follows, so
   * that no shift reaches the word width.
   */
  method RaderGuarded<T>(source: array<T>, target: array<T>, logsize: nat)
    requires logsize < W && source.Length == Pow2(logsize) && target.Length == source.Length
    requires source != target
    modifies target
    ensures target[..] == BitReverse(source[..], logsize)
  {
    ShlOne(logsize);
    var size := Shl(1, logsize);
    var n, reversed := 0, 0;
    ReverseZero(logsize);
    while n < size
      invariant n <= size
      invariant n < size ==> reversed == Reverse(n, logsize)
      invariant forall k | 0 <= k < n :: target[Reverse(k, logsize)] == source[k]
    {
      target[reversed] := source[n];
      forall k | 0 <= k < n ensures Reverse(k, logsize) != reversed {
        ReverseInjective(k, n, logsize);
      }
      if n + 1 < size {
        CounterInvariant(n, logsize);
        reversed := MirroredStep(reversed, logsize).value;
      }
      n := n + 1;
    }
    BitReverseUnique(source[..], target[..], logsize);
  }

  /**
   * The state of rader_inplace before iteration n: index k already holds its
   * final element once k or r(k) is below n, and its original one otherwise.
   */
  ghost predicate SwappedBelow<T>(cur: seq<T>, orig: seq<T>, n: nat, logsize: nat)
    requires |orig| == Pow2(logsize)
  {
    |cur| == |orig| &&
    forall k {:trigger Reverse(k, logsize)} | 0 <= k < |orig| ::
      cur[k] == if k < n || Reverse(k, logsize) < n then orig[Reverse(k, logsize)] else orig[k]
  }

  /** One iteration of rader_inplace: the pair (n, r(n)) is swapped when n < r(n). */
  lemma SwapStep<T>(cur: seq<T>, orig: seq<T>, n: nat, logsize: nat)
    requires |orig| == Pow2(logsize) && n < |orig| && SwappedBelow(cur, orig, n, logsize)
    ensures var r := Reverse(n, logsize);
      SwappedBelow(if n < r then cur[n := cur[r]][r := cur[n]] else cur, orig, n + 1, logsize)
  {
    var r := Reverse(n, logsize);
    ReverseInvolution(n, logsize);
    forall k | 0 <= k < |orig| ensures Reverse(k, logsize) == n <==> k == r {
      ReverseInvolution(k, logsize);
    }
  }

  /** Before the first iteration only index 0 counts as placed, and r(0) == 0. */
  lemma SwapStart<T>(orig: seq<T>, logsize: nat)
    requires |orig| == Pow2(logsize)
    ensures SwappedBelow(orig, orig, 1, logsize)
  {
    ReverseZero(logsize);
    forall k | 0 <= k < |orig| ensures Reverse(k, logsize) == 0 <==> k == 0 {
      ReverseInvolution(k, logsize);
    }
  }

  /** The loop stops at n == 2^logsize - 1, the all-ones fixed point (or at 1 when the size is 1). */
  lemma SwapDone<T>(cur: seq<T>, orig: seq<T>, n: nat, logsize: nat)
    requires |orig| == Pow2(logsize) && SwappedBelow(cur, orig, n, logsize)
    requires n == |orig| - 1 || n == |orig| == 1
    ensures cur == BitReverse(orig, logsize)
  {
    var last := |orig| - 1;
    ReverseAllOnes(logsize);
    var target := BitReverse(orig, logsize);
    forall k | 0 <= k < |orig| ensures cur[k] == target[k] {
      if n <= k && n <= Reverse(k, logsize) {
        if n == 1 && |orig| == 1 {
          ReverseZero(logsize);
        } else {
          assert k == last;
        }
      }
      assert target[k] == orig[Reverse(k, logsize)];
    }
  }

  /**
   * The body of rader_inplace's loop at index n (src/fft.c:52-53): array[n]
   * and array[r(n)] trade places when n < r(n). Both still hold their
   * original elements when that happens, so no pair is swapped twice, and
   * nothing moves when n >= r(n): fixed points and upper partners.
   */
  method SwapIfBelow<T>(a: array<T>, n: nat, reversed: nat, ghost orig: seq<T>, ghost logsize: nat)
    requires |orig| == Pow2(logsize) && n < a.Length && reversed == Reverse(n, logsize)
    requires SwappedBelow(a[..], orig, n, logsize)
    modifies a
    ensures SwappedBelow(a[..], orig, n + 1, logsize)
    ensures n < reversed ==> old(a[n]) == orig[n] && old(a[reversed]) == orig[reversed]
    ensures n < reversed ==> a[..] == old(a[..])[n := old(a[reversed])][reversed := old(a[n])]
    ensures reversed <= n ==> a[..] == old(a[..])
  {
    SwapStep(a[..], orig, n, logsize);
    if n < reversed {
      a[n], a[reversed] := a[reversed], a[n];
    }
  }

  /** The counter update of rader_inplace (src/fft.c:55-60): r(n) becomes r(n + 1), with no shift by W while n + 1 < 2^logsize. */
  method AdvanceCounter(reversed: nat, ghost n: nat, logsize: nat) returns (next: nat)
    requires logsize < W && n + 1 < Pow2(logsize) && reversed == Reverse(n, logsize)
    ensures next == Reverse(n + 1, logsize)
  {
    CounterInvariant(n, logsize);
    next := MirroredStep(reversed, logsize).value;
  }

  /** One pass of the loop of rader_inplace (src/fft.c:52-60): the conditional swap, then the counter update. */
  method InPlaceIteration<T>(a: array<T>, n: nat, reversed: nat, ghost orig: seq<T>, logsize: nat) returns (next: nat)
    requires logsize < W && |orig| == Pow2(logsize) && a.Length == |orig| && n + 1 < a.Length
    requires reversed == Reverse(n, logsize)
    requires SwappedBelow(a[..], orig, n, logsize)
    modifies a
    ensures SwappedBelow(a[..], orig, n + 1, logsize)
    ensures next == Reverse(n + 1, logsize)
  {
    SwapIfBelow(a, n, reversed, orig, logsize);
    next := AdvanceCounter(reversed, n, logsize);
  }

  /**
   * rader_inplace (src/fft.c:47-62): for n = 1 .. 2^logsize - 2, swaps
   * array[n] with array[r(n)] when n < r(n), leaving the bit-reversed
   * arrangement.
   */
  method RaderInPlace<T>(a: array<T>, logsize: nat)
    requires logsize < W && a.Length == Pow2(logsize)
    modifies a
    ensures a[..] == BitReverse(old(a[..]), logsize)
  {
    ghost var orig := a[..];
    CounterStart(logsize);
    var size := Shl(1, logsize);
    var n, reversed := 1, Shr(size, 1);
    SwapStart(orig, logsize);
    while n < size - 1
      invariant 1 <= n && (n < size || n == 1)
      invariant reversed == Reverse(n, logsize)
      invariant SwappedBelow(a[..], orig, n, logsize)
    {
      reversed := InPlaceIteration(a, n, reversed, orig, logsize);
      n := n + 1;
    }
    SwapDone(a[..], orig, n, logsize);
  }
}
