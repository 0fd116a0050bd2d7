/**
 * `fft` of src/lib.rs (lines 4-56) with the sample values kept abstract: the
 * length guard, the width `n_bits`, the bit-reversal table, the twiddle
 * table, the permuted load and the loop of butterfly passes, together with
 * the result they compute.
 */
module Fft {
  import opened Bits
  import opened Reversal
  import opened Butterfly

  /** `i32::MAX`. */
  const I32Max: int := 0x7fff_ffff

  /** `tone.len() as i32` at line 5: keeps the low 32 bits, read as two's complement. */
  function AsI32(len: nat): (v: int)
    ensures -I32Max - 1 <= v <= I32Max
    ensures len <= I32Max ==> v == len
    ensures (v - len) % 0x1_0000_0000 == 0
  {
    var low := len % 0x1_0000_0000;
    if low <= I32Max then low else low - 0x1_0000_0000
  }

  /** The panic of line 7, returned as an error. */
  datatype FftError = LengthNotPowerOfTwo

  datatype Result<T> = Ok(value: T) | Err(error: FftError)

  /**
   * The guard of lines 5-8 as written: it fails when `n % 2 == 0`. Rust's `%`
   * truncates toward zero, but the remainder of 2 is zero for exactly the
   * even numbers either way, so Dafny's `%` gives the same test.
   */
  function GuardAsWritten(len: nat): (r: Result<int>)
    ensures r.Err? <==> len % 2 == 0
    ensures r.Ok? ==> r.value == AsI32(len)
  {
    var n := AsI32(len);
    if n % 2 == 0 then Err(LengthNotPowerOfTwo) else Ok(n)
  }

  /** As written, the only power of two the guard lets through is 1. */
  lemma GuardAsWrittenRejectsPowersOfTwo(len: nat)
    requires IsPowerOfTwo(len) && len != 1
    ensures GuardAsWritten(len).Err?
  {
    var k := Log2(len);
    assert k != 0;
    assert len == 2 * Pow2(k - 1);
  }

  /**
   * As written, the cast of line 5 truncates: 2^32 + 1 samples become n = 1,
   * which is odd, so the guard lets them through as a length of 1.
   */
  lemma GuardAsWrittenTruncates()
    ensures GuardAsWritten(0x1_0000_0001) == Ok(1)
    ensures Guard(0x1_0000_0001).Err?
  {
  }

  /** The smallest input the guard wrongly rejects: two samples, a power of two. */
  lemma GuardAsWrittenRejectsTwo()
    ensures IsPowerOfTwo(2) && GuardAsWritten(2) == Err(LengthNotPowerOfTwo)
  {
    PowerOfTwoPow2(1);
  }

  /**
   * The corrected guard of lines 5-8. The length must be a positive power of
   * two, as the panic message of line 7 asks, tested with `n & (n - 1) == 0`.
   * It must also fit `n: i32`, so that the cast of line 5 does not truncate
   * it.
   */
  function Guard(len: nat): (r: Result<nat>)
    ensures r.Ok? <==> IsPowerOfTwo(len) && len <= I32Max
    ensures r.Ok? ==> r.value == len
  {
    if len == 0 || len > I32Max then Err(LengthNotPowerOfTwo)
    else
      AndPredecessor(len);
      if And(len, len - 1) == 0 then Ok(len) else Err(LengthNotPowerOfTwo)
  }

  /**
   * 2^30, the largest power of two an `i32` holds and the largest n for
   * which the width loop of lines 11-13 stops: above it `1 << n_bits`
   * overflows `i32` before it reaches n.
   */
  const MaxLen: nat := 0x4000_0000

  /** 1 << 31 is one above `i32::MAX`. */
  lemma Pow2ThirtyOne()
    ensures Pow2(31) == I32Max + 1 && Pow2(30) == MaxLen
  {
    Pow2Add(1, 1);
    assert Pow2(2) == 4;
    Pow2Add(2, 2);
    assert Pow2(4) == 16;
    Pow2Add(4, 4);
    assert Pow2(8) == 256;
    Pow2Add(8, 8);
    assert Pow2(16) == 0x1_0000;
    Pow2Add(16, 15);
    assert Pow2(15) == 0x8000;
  }

  /** A power of two that fits `i32` is at most 2^30. */
  lemma PowerOfTwoFitsI32(n: nat)
    requires IsPowerOfTwo(n) && n <= I32Max
    ensures n <= MaxLen
  {
    var k := Log2(n);
    Pow2ThirtyOne();
    Pow2Monotone(k, 31);
    Pow2Monotone(k, 30);
  }

  /**
   * Lines 9-13: the least width b with n <= 2^b. It is at most 30, so the
   * `i32` shift of line 11 never reaches the type's width.
   */
  method NumBits(n: int) returns (nbits: nat)
    requires n <= MaxLen
    ensures n <= Pow2(nbits)
    ensures nbits == 0 || Pow2(nbits - 1) < n
    ensures nbits <= 30
  {
    nbits := 0;
    while Shl1(nbits, 32) < n
      invariant nbits == 0 || Pow2(nbits - 1) < n
      invariant nbits <= 30
      decreases n - Pow2(nbits)
    {
      Pow2ThirtyOne();
      nbits := nbits + 1;
    }
  }

  /** The least width of 2^k is k. */
  lemma WidthOfPowerOfTwo(k: nat, nbits: nat)
    requires Pow2(k) <= Pow2(nbits)
    requires nbits == 0 || Pow2(nbits - 1) < Pow2(k)
    ensures nbits == k
  {
    Pow2Monotone(nbits, k);
    if nbits > 0 {
      Pow2Monotone(nbits - 1, k);
    }
  }

  /**
   * For n = 2^k the table `reverse_positions` is an involution on 0..n-1 and
   * hence a permutation of it: every entry is below n, entry rev[i] is i, and
   * distinct slots hold distinct entries.
   */
  lemma TableIsInvolution(rev: seq<nat>, k: nat)
    requires |rev| == Pow2(k) && forall i :: 0 <= i < |rev| ==> rev[i] == BitReverse(i, k)
    ensures forall i :: 0 <= i < |rev| ==> rev[i] < |rev| && rev[rev[i]] == i
    ensures forall i, j :: 0 <= i < j < |rev| ==> rev[i] != rev[j]
  {
    ReverseIsPermutation(k);
    forall i, j | 0 <= i < j < |rev|
      ensures rev[i] != rev[j]
    {
      assert BitReverse(i, k) != BitReverse(j, k);
    }
  }

  /** Lines 25-29: `precalc_roots[i]` is the abstract root(i, n), pushed in order. */
  method PrecalcRoots<R, C>(ar: Arith<R, C>, n: nat) returns (roots: seq<C>)
    ensures |roots| == n
    ensures forall i :: 0 <= i < n ==> roots[i] == ar.root(i, n)
  {
    roots := [];
    var i := 0;
    while i < n
      invariant i <= n && |roots| == i
      invariant forall j :: 0 <= j < i ==> roots[j] == ar.root(j, n)
    {
      roots := roots + [ar.root(i, n)];
      i := i + 1;
    }
  }

  /** Lines 31-34: `current_tone[i]` is sample rev[i] with zero imaginary part. */
  method PermutedLoad<R, C>(ar: Arith<R, C>, tone: seq<R>, rev: seq<nat>) returns (cur: seq<C>)
    requires |rev| == |tone| && forall i :: 0 <= i < |rev| ==> rev[i] < |tone|
    ensures |cur| == |tone|
    ensures forall i :: 0 <= i < |tone| ==> cur[i] == ar.ofReal(tone[rev[i]])
  {
    cur := [];
    var i := 0;
    while i < |tone|
      invariant i <= |tone| && |cur| == i
      invariant forall j :: 0 <= j < i ==> cur[j] == ar.ofReal(tone[rev[j]])
    {
      cur := cur + [ar.ofReal(tone[rev[i]])];
      i := i + 1;
    }
  }

  /**
   * For n = 2^k the permuted load holds every sample exactly once: sample s
   * sits at slot BitReverse(s, k), and distinct slots take distinct samples.
   */
  lemma LoadHoldsEachSampleOnce<R, C>(ar: Arith<R, C>, tone: seq<R>, k: nat, cur: seq<C>)
    requires |tone| == Pow2(k) && |cur| == |tone|
    requires forall i :: 0 <= i < |tone| ==> cur[i] == ar.ofReal(tone[BitReverse(i, k)])
    ensures forall s :: 0 <= s < |tone| ==> BitReverse(s, k) < |cur| && cur[BitReverse(s, k)] == ar.ofReal(tone[s])
    ensures forall i, j :: 0 <= i < j < |tone| ==> BitReverse(i, k) != BitReverse(j, k)
  {
    ReverseIsPermutation(k);
    forall i, j | 0 <= i < j < |tone|
      ensures BitReverse(i, k) != BitReverse(j, k)
    {
    }
  }

  /** The pass of half-block length 2^s over 2^k slots works on whole blocks. */
  lemma PassFits(k: nat, s: nat)
    requires s < k
    ensures 2 * Pow2(s) == Pow2(s + 1) && Multiple(Pow2(k), 2 * Pow2(s))
  {
    MultiplePow2(k, s + 1);
  }

  /**
   * The passes with half-block lengths 2^s, 2^(s+1), ..., 2^(k-1) applied in
   * turn to cur, each with the twiddles roots[i * n / (2 * block_len)].
   */
  function Stages<R, C>(ar: Arith<R, C>, roots: seq<C>, cur: seq<C>, k: nat, s: nat): (out: seq<C>)
    requires |cur| == Pow2(k) && |roots| == |cur| && s <= k
    ensures |out| == |cur|
    decreases k - s
  {
    if s == k then cur
    else
      PassFits(k, s);
      var blockLen := Pow2(s);
      Stages(ar, roots, PassSpec(ar, Twiddles(roots, blockLen, |roots| / (2 * blockLen)), cur), k, s + 1)
  }

  /** The twiddle table: root(i, n) for i in 0..n-1. */
  function Roots<R, C>(ar: Arith<R, C>, n: nat): (roots: seq<C>)
    ensures |roots| == n && forall i :: 0 <= i < n ==> roots[i] == ar.root(i, n)
  {
    seq(n, i requires 0 <= i < n => ar.root(i, n))
  }

  /** The permuted load for n = 2^k: slot i holds sample BitReverse(i, k). */
  function Loaded<R, C>(ar: Arith<R, C>, tone: seq<R>, k: nat): (cur: seq<C>)
    requires |tone| == Pow2(k)
    ensures |cur| == |tone| && forall i :: 0 <= i < |tone| ==> cur[i] == ar.ofReal(tone[BitReverse(i, k)])
  {
    seq(|tone|, i requires 0 <= i < |tone| => ar.ofReal(tone[BitReverse(i, k)]))
  }

  /**
   * What `fft` returns: the guard's error, or the passes with half-block
   * lengths 1, 2, ..., n/2 applied to the permuted load, with the twiddle
   * table root(i, n).
   */
  function FftSpec<R, C>(ar: Arith<R, C>, tone: seq<R>): (r: Result<seq<C>>)
    ensures r.Ok? <==> IsPowerOfTwo(|tone|) && |tone| <= I32Max
    ensures r.Ok? ==> |r.value| == |tone|
  {
    match Guard(|tone|)
    case Err(e) => Err(e)
    case Ok(n) =>
      var k := Log2(n);
      Ok(Stages(ar, Roots(ar, n), Loaded(ar, tone, k), k, 0))
  }

  lemma RootsTable<R, C>(ar: Arith<R, C>, roots: seq<C>, n: nat)
    requires |roots| == n && forall i :: 0 <= i < n ==> roots[i] == ar.root(i, n)
    ensures roots == Roots(ar, n)
  {
  }

  lemma LoadTable<R, C>(ar: Arith<R, C>, tone: seq<R>, k: nat, rev: seq<nat>, cur: seq<C>)
    requires |tone| == Pow2(k) && |rev| == |tone| && |cur| == |tone|
    requires forall i :: 0 <= i < |rev| ==> rev[i] == BitReverse(i, k) && rev[i] < |tone|
    requires forall i :: 0 <= i < |tone| ==> cur[i] == ar.ofReal(tone[rev[i]])
    ensures cur == Loaded(ar, tone, k)
  {
    assert forall i :: 0 <= i < |tone| ==> cur[i] == Loaded(ar, tone, k)[i];
  }

  /**
   * Lines 36-53: block_len = 1, 2, ..., n/2, one butterfly pass each into a
   * fresh buffer. The ghost `passes` counts the rounds: log2(n) of them.
   */
  method Passes<R, C>(ar: Arith<R, C>, roots: seq<C>, cur: seq<C>, ghost k: nat)
    returns (out: seq<C>, ghost passes: nat)
    requires |cur| == Pow2(k) && |roots| == |cur|
    ensures out == Stages(ar, roots, cur, k, 0)
    ensures passes == k
  {
    var n := |cur|;
    var current := cur;
    passes := 0;
    var blockLen := 1;
    while blockLen < n
      invariant passes <= k && blockLen == Pow2(passes) && |current| == n
      invariant Stages(ar, roots, current, k, passes) == Stages(ar, roots, cur, k, 0)
      decreases k - passes
    {
      Pow2Monotone(passes, k);
      PassFits(k, passes);
      ghost var writes;
      current, writes := ButterflyPass(ar, roots, current, blockLen);
      blockLen := 2 * blockLen;
      passes := passes + 1;
    }
    Pow2Monotone(passes, k);
    out := current;
  }

  /**
   * Lines 9-55 for a length n = 2^k that passed the guard: n_bits, the
   * reversal table, the twiddle table, the permuted load and the passes.
   */
  method Transform<R, C>(ar: Arith<R, C>, tone: seq<R>, ghost k: nat) returns (out: seq<C>, ghost passes: nat)
    requires |tone| == Pow2(k) && |tone| <= MaxLen
    ensures out == Stages(ar, Roots(ar, |tone|), Loaded(ar, tone, k), k, 0)
    ensures passes == k
  {
    var n := |tone|;
    var nbits := NumBits(n);
    WidthOfPowerOfTwo(k, nbits);
    var rev := ReversePositions(n, nbits);
    var roots := PrecalcRoots(ar, n);
    var current := PermutedLoad(ar, tone, rev);
    RootsTable(ar, roots, n);
    LoadTable(ar, tone, k, rev, current);
    out, passes := Passes(ar, roots, current, k);
  }

  /** Lines 4-56 with the corrected guard, proved to compute FftSpec. */
  method Fft<R, C>(ar: Arith<R, C>, tone: seq<R>) returns (r: Result<seq<C>>, ghost passes: nat)
    ensures r == FftSpec(ar, tone)
    ensures r.Ok? ==> passes == Log2(|tone|)
  {
    passes := 0;
    var n := |tone|;
    if n == 0 || n > I32Max || And(n, n - 1) != 0 {
      r := Err(LengthNotPowerOfTwo);
      return;
    }
    AndPredecessor(n);
    PowerOfTwoFitsI32(n);
    var out;
    out, passes := Transform(ar, tone, Log2(n));
    r := Ok(out);
  }
}
