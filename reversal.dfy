/**
 * The bit-reversal permutation: the textbook k-bit reversal, its properties
 * (bounded, an involution, hence a permutation of 0..2^k - 1), and the
 * incremental table `reverse_positions` that `fft` builds from it.
 */
module Reversal {
  import opened Bits

  /**
   * Textbook k-bit reversal: bit t of x (t < k) becomes bit k - 1 - t of the
   * result; bits of x at k and above are dropped.
   */
  function BitReverse(x: nat, k: nat): (r: nat)
    ensures r < Pow2(k)
  {
    if k == 0 then 0 else BitReverse(x / 2, k - 1) + (if x % 2 == 1 then Pow2(k - 1) else 0)
  }

  lemma {:induction false} ReverseZero(k: nat)
    ensures BitReverse(0, k) == 0
  {
    if k > 0 {
      ReverseZero(k - 1);
    }
  }

  /** An x with only h <= k bits gains a clear lowest bit when reversed in k + 1 bits instead of k. */
  lemma {:induction false} ReverseWiden(x: nat, h: nat, k: nat)
    requires x < Pow2(h) && h <= k
    ensures BitReverse(x, k + 1) == 2 * BitReverse(x, k)
  {
    if h == 0 {
      ReverseZero(k);
      ReverseZero(k + 1);
    } else {
      ReverseWiden(x / 2, h - 1, k - 1);
    }
  }

  /** An x with only h <= k bits has its k-bit reversal's low k - h bits clear. */
  lemma {:induction false} ReverseLowClear(x: nat, h: nat, k: nat)
    requires x < Pow2(h) && h <= k
    ensures LowBitsClear(BitReverse(x, k), k - h)
  {
    if k > h {
      ReverseWiden(x, h, k - 1);
      ReverseLowClear(x, h, k - 1);
      var y := BitReverse(x, k - 1);
      assert BitReverse(x, k) == 2 * y;
      assert (2 * y) / 2 == y && (2 * y) % 2 == 0;
    }
  }

  /** Setting bit h of an x below 2^h sets bit k - 1 - h of its k-bit reversal. */
  lemma {:induction false} ReverseAddTopBit(x: nat, h: nat, k: nat)
    requires x < Pow2(h) && h < k
    ensures BitReverse(x + Pow2(h), k) == BitReverse(x, k) + Pow2(k - h - 1)
  {
    if h == 0 {
      ReverseZero(k - 1);
      ReverseZero(k);
    } else {
      ReverseAddTopBit(x / 2, h - 1, k - 1);
      AddTopBitLift(x, h, k);
    }
  }

  /** The step of ReverseAddTopBit: from bit h - 1 of x / 2 to bit h of x. */
  lemma AddTopBitLift(x: nat, h: nat, k: nat)
    requires 1 <= h < k && x < Pow2(h)
    requires BitReverse(x / 2 + Pow2(h - 1), k - 1) == BitReverse(x / 2, k - 1) + Pow2(k - h - 1)
    ensures BitReverse(x + Pow2(h), k) == BitReverse(x, k) + Pow2(k - h - 1)
  {
    var y, half := x + Pow2(h), x / 2;
    assert Pow2(h) == 2 * Pow2(h - 1);
    assert y / 2 == half + Pow2(h - 1) && y % 2 == x % 2;
  }

  /** The highest of k bits becomes the lowest. */
  lemma ReverseTopBit(y: nat, k: nat)
    requires k >= 1 && y < Pow2(k - 1)
    ensures BitReverse(y, k) == 2 * BitReverse(y, k - 1)
    ensures BitReverse(y + Pow2(k - 1), k) == 2 * BitReverse(y, k - 1) + 1
  {
    ReverseWiden(y, k - 1, k - 1);
    ReverseAddTopBit(y, k - 1, k);
  }

  /** Reversing twice gives back every k-bit index. */
  lemma {:induction false} ReverseInvolution(x: nat, k: nat)
    requires x < Pow2(k)
    ensures BitReverse(BitReverse(x, k), k) == x
  {
    if k > 0 {
      ReverseInvolution(x / 2, k - 1);
      InvolutionLift(x, k);
    }
  }

  /** The step of ReverseInvolution: from x / 2 in k - 1 bits to x in k bits. */
  lemma InvolutionLift(x: nat, k: nat)
    requires k >= 1 && x < Pow2(k)
    requires BitReverse(BitReverse(x / 2, k - 1), k - 1) == x / 2
    ensures BitReverse(BitReverse(x, k), k) == x
  {
    ReverseTopBit(BitReverse(x / 2, k - 1), k);
  }

  /**
   * k-bit reversal is a permutation of 0..2^k - 1: it maps the range into
   * itself, is one-to-one, and every index is the image of its own reversal.
   */
  lemma ReverseIsPermutation(k: nat)
    ensures forall x :: 0 <= x < Pow2(k) ==> BitReverse(x, k) < Pow2(k)
    ensures forall x, y :: 0 <= x < Pow2(k) && 0 <= y < Pow2(k) && BitReverse(x, k) == BitReverse(y, k) ==> x == y
    ensures forall y :: 0 <= y < Pow2(k) ==> BitReverse(BitReverse(y, k), k) == y
  {
    forall x | 0 <= x < Pow2(k)
      ensures BitReverse(BitReverse(x, k), k) == x
    {
      ReverseInvolution(x, k);
    }
    forall x, y | 0 <= x < Pow2(k) && 0 <= y < Pow2(k) && BitReverse(x, k) == BitReverse(y, k)
      ensures x == y
    {
      ReverseInvolution(x, k);
      ReverseInvolution(y, k);
    }
  }

  /**
   * The recurrence of lines 21-22: with h the highest set bit of i,
   * rev(i) = rev(i ^ (1 << h)) | (1 << (k - h - 1)).
   */
  lemma ReverseStep(i: nat, k: nat, h: nat)
    requires 1 <= i < Pow2(k) && h == Log2(i)
    ensures h < k
    ensures Xor(i, Pow2(h)) < i
    ensures BitReverse(i, k) == Or(BitReverse(Xor(i, Pow2(h)), k), Pow2(k - h - 1))
  {
    Pow2Monotone(h, k);
    XorClearsTopBit(i, h);
    var rest := i - Pow2(h);
    var r := BitReverse(rest, k);
    ReverseLowClear(rest, h, k);
    OrSetsClearBit(r, k - h - 1);
    ReverseAddTopBit(rest, h, k);
    assert rest + Pow2(h) == i;
    assert BitReverse(i, k) == r + Pow2(k - h - 1);
  }

  /**
   * The update of `high_bit` at lines 17-19: it is bumped exactly when i is a
   * power of two, and so stays the highest set bit of the index.
   */
  lemma HighBitStep(i: nat, highBit: int)
    requires i >= 1 && if i == 1 then highBit == -1 else highBit == Log2(i - 1)
    ensures And(i, i - 1) == 0 ==> highBit + 1 == Log2(i)
    ensures And(i, i - 1) != 0 ==> highBit == Log2(i)
  {
    AndPredecessor(i);
    if i >= 2 {
      Log2Step(i);
    }
  }

  /**
   * Lines 21-22: entry i of the table from the entry of i with its highest
   * bit cleared, given that the entries below i are already right. The shift
   * amounts `high_bit` (of a `usize`) and `n_bits - high_bit - 1` (of an
   * `i32`) lie in 0..29, so neither shift panics.
   */
  method StoreReversal(table: array<nat>, i: nat, highBit: nat, nbits: nat)
    requires 1 <= i < table.Length <= Pow2(nbits) && highBit == Log2(i) && nbits <= 30
    requires forall j :: 0 <= j < i ==> table[j] == BitReverse(j, nbits)
    modifies table
    ensures forall j :: 0 <= j <= i ==> table[j] == BitReverse(j, nbits)
    ensures forall j :: i < j < table.Length ==> table[j] == old(table[j])
  {
    ReverseStep(i, nbits, highBit);
    table[i] := table[Xor(i, Shl1(highBit, 64))];
    table[i] := Or(table[i], Shl1(nbits - highBit - 1, 32));
  }

  /**
   * Lines 15-23: the table `reverse_positions`, built in O(n) by reusing the
   * entry of i with its highest bit cleared. Entry i is the n_bits-bit
   * reversal of i. The width `n_bits` of lines 9-13 is at most 30.
   */
  method ReversePositions(n: nat, nbits: nat) returns (rev: seq<nat>)
    requires n <= Pow2(nbits) && nbits <= 30
    ensures |rev| == n
    ensures forall i :: 0 <= i < n ==> rev[i] == BitReverse(i, nbits)
  {
    var table := new nat[n](_ => 0);
    var highBit: int := -1;
    var i := 1;
    if n >= 1 {
      ReverseZero(nbits);
    }
    while i < n
      invariant 1 <= i && (n >= 1 ==> i <= n)
      invariant if i == 1 then highBit == -1 else highBit == Log2(i - 1)
      invariant forall j :: 0 <= j < i && j < n ==> table[j] == BitReverse(j, nbits)
    {
      HighBitStep(i, highBit);
      if And(i, i - 1) == 0 {
        highBit := highBit + 1;
      }
      StoreReversal(table, i, highBit, nbits);
      i := i + 1;
    }
    rev := table[..];
  }
}
