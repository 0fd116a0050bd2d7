/**
 * One butterfly pass of `fft` (lines 38-51 of src/lib.rs) over an abstract
 * sample type: the blocks a pass works on, the result it must produce, the
 * loop nest that produces it, and the index facts behind it (every index in
 * bounds, every slot written exactly once).
 */
module Butterfly {
  import opened Bits

  /**
   * The `Complex32` operations `fft` uses, left uninterpreted. `R` stands for
   * `f32` samples and `C` for `Complex32` values.
   */
  datatype Arith<!R, !C> = Arith(
    add: (C, C) -> C,       // Complex32 +
    sub: (C, C) -> C,       // Complex32 -
    mul: (C, C) -> C,       // Complex32 *
    ofReal: R -> C,         // Complex::new(x, 0.0)
    zero: C,                // Complex::new(0.0, 0.0)
    root: (nat, nat) -> C   // root(i, n): Complex::new(cos(2*PI*i/n), sin(2*PI*i/n))
  )

  // Blocks of m consecutive slots, counted by repeated subtraction.

  /** n slots are a whole number of blocks of m. */
  predicate Multiple(n: nat, m: nat)
    requires m >= 1
  {
    n == 0 || (n >= m && Multiple(n - m, m))
  }

  /** The offset of slot j in its block of m slots; j - off is where the block starts. */
  function Offset(j: nat, m: nat): (off: nat)
    requires m >= 1
    ensures off < m && off <= j
  {
    if j < m then j else Offset(j - m, m)
  }

  /** Slot j - Offset(j, m) starts a block. */
  lemma {:induction false} OffsetStart(j: nat, m: nat)
    requires m >= 1
    ensures Multiple(j - Offset(j, m), m)
  {
    if j >= m {
      OffsetStart(j - m, m);
    }
  }

  lemma {:induction false} MultipleIsMod(n: nat, m: nat)
    requires m >= 1
    ensures Multiple(n, m) <==> n % m == 0
  {
    if n >= m {
      MultipleIsMod(n - m, m);
      ModSubtract(n, m);
    } else {
      DivModUnique(n, m, 0, n);
    }
  }

  lemma {:induction false} OffsetIsMod(j: nat, m: nat)
    requires m >= 1
    ensures Offset(j, m) == j % m
  {
    if j >= m {
      OffsetIsMod(j - m, m);
      ModSubtract(j, m);
    } else {
      DivModUnique(j, m, 0, j);
    }
  }

  /** A block starting below the end of a whole number of blocks fits before the end. */
  lemma {:induction false} MultipleFits(pos: nat, n: nat, m: nat)
    requires m >= 1 && Multiple(pos, m) && Multiple(n, m) && pos < n
    ensures pos + m <= n
  {
    if pos > 0 {
      MultipleFits(pos - m, n - m, m);
    }
  }

  lemma {:induction false} MultipleAdd(a: nat, b: nat, m: nat)
    requires m >= 1 && Multiple(a, m) && Multiple(b, m)
    ensures Multiple(a + b, m)
  {
    if a > 0 {
      MultipleAdd(a - m, b, m);
    }
  }

  /** 2^k slots are a whole number of blocks of 2^s for s <= k. */
  lemma {:induction false} MultiplePow2(k: nat, s: nat)
    requires s <= k
    ensures Multiple(Pow2(k), Pow2(s))
  {
    if k == s {
      assert Multiple(Pow2(k) - Pow2(s), Pow2(s));
    } else {
      MultiplePow2(k - 1, s);
      MultipleAdd(Pow2(k - 1), Pow2(k - 1), Pow2(s));
    }
  }

  /** A slot in the block starting at start has offset j - start. */
  lemma {:induction false} OffsetInBlock(j: nat, start: nat, m: nat)
    requires m >= 1 && Multiple(start, m) && start <= j < start + m
    ensures Offset(j, m) == j - start
  {
    if start > 0 {
      OffsetInBlock(j - m, start - m, m);
    }
  }

  /**
   * `block_step = n / (2 * block_len)` at line 39: positive, and the twiddle
   * index i * block_step of every offset i below blockLen is below n.
   */
  lemma TwiddleIndex(i: nat, blockLen: nat, step: nat, n: nat)
    requires blockLen >= 1 && n >= 1 && Multiple(n, 2 * blockLen)
    requires step == n / (2 * blockLen) && i < blockLen
    ensures step >= 1 && i * step < n
  {
    MultipleQuotient(n, 2 * blockLen);
    StepBound(i, blockLen, step, n);
  }

  /** A whole number of blocks of m is m times the quotient. */
  lemma MultipleQuotient(n: nat, m: nat)
    requires m >= 1 && Multiple(n, m)
    ensures n == (n / m) * m
  {
    MultipleIsMod(n, m);
  }

  lemma StepBound(i: nat, blockLen: nat, step: nat, n: nat)
    requires n >= 1 && n == step * (2 * blockLen) && i < blockLen
    ensures step >= 1 && i * step < n
  {
    MulMonotone(i, blockLen, step);
    assert n == 2 * (blockLen * step);
  }

  /** Slot j is a `new_tone_i` the pass visits: it lies in the first half of its 2 * blockLen block. */
  predicate IsVisited(j: nat, blockLen: nat)
    requires blockLen >= 1
  {
    Offset(j, 2 * blockLen) < blockLen
  }

  /** The partner of a visited slot and the visited slot of any other slot are in bounds. */
  lemma PartnerInBounds(j: nat, blockLen: nat, n: nat)
    requires blockLen >= 1 && Multiple(n, 2 * blockLen) && j < n
    ensures IsVisited(j, blockLen) ==> j + blockLen < n
    ensures !IsVisited(j, blockLen) ==> blockLen <= j
  {
    var m := 2 * blockLen;
    OffsetStart(j, m);
    MultipleFits(j - Offset(j, m), n, m);
  }

  /**
   * Every index a pass computes from slot j is in bounds: the partner
   * j + blockLen of a visited slot, the visited slot j - blockLen of any other
   * slot, and the twiddle index (offset in the half block) * block_step.
   */
  lemma SlotInBounds(j: nat, blockLen: nat, n: nat)
    requires blockLen >= 1 && Multiple(n, 2 * blockLen) && j < n
    ensures n / (2 * blockLen) >= 1
    ensures IsVisited(j, blockLen) ==>
      j + blockLen < n && Offset(j, 2 * blockLen) * (n / (2 * blockLen)) < n
    ensures !IsVisited(j, blockLen) ==>
      blockLen <= j && (Offset(j, 2 * blockLen) - blockLen) * (n / (2 * blockLen)) < n
  {
    var m := 2 * blockLen;
    var off := Offset(j, m);
    PartnerInBounds(j, blockLen, n);
    if off < blockLen {
      TwiddleIndex(off, blockLen, n / m, n);
    } else {
      TwiddleIndex(off - blockLen, blockLen, n / m, n);
    }
  }

  /** Slot j is visited exactly when it is not the partner of the visited slot j - blockLen. */
  lemma {:induction false} SlotPartner(j: nat, blockLen: nat)
    requires blockLen >= 1
    ensures IsVisited(j, blockLen) <==> !(j >= blockLen && IsVisited(j - blockLen, blockLen))
  {
    var m := 2 * blockLen;
    if j >= m {
      SlotPartner(j - m, blockLen);
      if j - blockLen >= m {
        assert Offset(j - blockLen, m) == Offset(j - blockLen - m, m);
      }
    }
  }

  /**
   * The visited slots and their partners cover 0..n-1 exactly once: each slot
   * is either visited itself or the partner of exactly the one visited slot
   * j - blockLen, never both, and a visited slot's partner is below n.
   */
  lemma PassPartition(n: nat, blockLen: nat)
    requires blockLen >= 1 && Multiple(n, 2 * blockLen)
    ensures forall j: nat :: j < n ==>
      (IsVisited(j, blockLen) <==> !(j >= blockLen && IsVisited(j - blockLen, blockLen)))
    ensures forall j: nat :: j < n && IsVisited(j, blockLen) ==> j + blockLen < n
  {
    forall j: nat | j < n
      ensures IsVisited(j, blockLen) <==> !(j >= blockLen && IsVisited(j - blockLen, blockLen))
    {
      SlotPartner(j, blockLen);
    }
    forall j: nat | j < n
      ensures IsVisited(j, blockLen) ==> j + blockLen < n
    {
      PartnerInBounds(j, blockLen, n);
    }
  }

  /**
   * The twiddle factors of the pass with half-block length blockLen:
   * tw[i] = roots[i * step] with step = block_step = n / (2 * blockLen).
   */
  function Twiddles<C>(roots: seq<C>, blockLen: nat, step: nat): (tw: seq<C>)
    requires blockLen >= 1 && |roots| >= 1 && Multiple(|roots|, 2 * blockLen)
    requires step == |roots| / (2 * blockLen)
    ensures |tw| == blockLen
  {
    seq(blockLen, i requires 0 <= i < blockLen =>
      TwiddleIndex(i, blockLen, step, |roots|);
      roots[i * step])
  }

  /**
   * Slot j after one pass, with h = |tw|: a visited slot j at offset i of its
   * block gets cur[j] + tw[i] * cur[j + h], and every other slot j is the
   * partner of the visited slot j - h and gets cur[j - h] - tw[i - h] * cur[j].
   */
  function PassSlot<R, C>(ar: Arith<R, C>, tw: seq<C>, cur: seq<C>, j: nat): C
    requires |tw| >= 1 && Multiple(|cur|, 2 * |tw|) && j < |cur|
  {
    PartnerInBounds(j, |tw|, |cur|);
    var off := Offset(j, 2 * |tw|);
    if off < |tw| then ar.add(cur[j], ar.mul(tw[off], cur[j + |tw|]))
    else ar.sub(cur[j - |tw|], ar.mul(tw[off - |tw|], cur[j]))
  }

  /** The result of one pass: every slot as PassSlot gives it. */
  function PassSpec<R, C>(ar: Arith<R, C>, tw: seq<C>, cur: seq<C>): (next: seq<C>)
    requires |tw| >= 1 && Multiple(|cur|, 2 * |tw|)
    ensures |next| == |cur|
    ensures forall j :: 0 <= j < |cur| ==> next[j] == PassSlot(ar, tw, cur, j)
  {
    seq(|cur|, j requires 0 <= j < |cur| => PassSlot(ar, tw, cur, j))
  }

  /** Twiddle t is roots[t * step], and its index is in bounds. */
  lemma TwiddleValues<C>(roots: seq<C>, blockLen: nat, step: nat)
    requires blockLen >= 1 && |roots| >= 1 && Multiple(|roots|, 2 * blockLen)
    requires step == |roots| / (2 * blockLen)
    ensures forall t :: 0 <= t < blockLen ==>
      t * step < |roots| && Twiddles(roots, blockLen, step)[t] == roots[t * step]
  {
    forall t | 0 <= t < blockLen
      ensures t * step < |roots|
    {
      TwiddleIndex(t, blockLen, step, |roots|);
    }
  }

  /** A slot of the first half of the block at base gets cur[j] + tw[j - base] * cur[j + h]. */
  lemma VisitedSlot<R, C>(ar: Arith<R, C>, tw: seq<C>, cur: seq<C>, base: nat, j: nat)
    requires |tw| >= 1 && Multiple(|cur|, 2 * |tw|) && Multiple(base, 2 * |tw|) && base + 2 * |tw| <= |cur|
    requires base <= j < base + |tw|
    ensures PassSlot(ar, tw, cur, j) == ar.add(cur[j], ar.mul(tw[j - base], cur[j + |tw|]))
  {
    OffsetInBlock(j, base, 2 * |tw|);
    assert IsVisited(j, |tw|);
  }

  /** A slot of the second half of the block at base gets cur[j - h] - tw[j - base - h] * cur[j]. */
  lemma PartnerSlot<R, C>(ar: Arith<R, C>, tw: seq<C>, cur: seq<C>, base: nat, j: nat)
    requires |tw| >= 1 && Multiple(|cur|, 2 * |tw|) && Multiple(base, 2 * |tw|) && base + 2 * |tw| <= |cur|
    requires base + |tw| <= j < base + 2 * |tw|
    ensures PassSlot(ar, tw, cur, j) == ar.sub(cur[j - |tw|], ar.mul(tw[j - base - |tw|], cur[j]))
  {
    OffsetInBlock(j, base, 2 * |tw|);
    assert !IsVisited(j, |tw|);
  }

  /**
   * spec holds, for the block of 2 * h slots at base (h = |tw|), the values
   * the source writes there: cur[j] + tw[j - base] * cur[j + h] in the first
   * half and cur[j - h] - tw[j - base - h] * cur[j] in the second.
   */
  ghost predicate BlockForm<R, C>(ar: Arith<R, C>, tw: seq<C>, cur: seq<C>, spec: seq<C>, base: nat)
  {
    |spec| == |cur| && base + 2 * |tw| <= |cur| &&
    (forall j :: base <= j < base + |tw| ==>
      spec[j] == ar.add(cur[j], ar.mul(tw[j - base], cur[j + |tw|]))) &&
    (forall j :: base + |tw| <= j < base + 2 * |tw| ==>
      spec[j] == ar.sub(cur[j - |tw|], ar.mul(tw[j - base - |tw|], cur[j])))
  }

  /** PassSpec gives every block the values the source writes there. */
  lemma BlockValues<R, C>(ar: Arith<R, C>, tw: seq<C>, cur: seq<C>, base: nat)
    requires |tw| >= 1 && Multiple(|cur|, 2 * |tw|) && Multiple(base, 2 * |tw|) && base < |cur|
    ensures BlockForm(ar, tw, cur, PassSpec(ar, tw, cur), base)
  {
    MultipleFits(base, |cur|, 2 * |tw|);
    forall j | base <= j < base + |tw|
      ensures PassSpec(ar, tw, cur)[j] == ar.add(cur[j], ar.mul(tw[j - base], cur[j + |tw|]))
    {
      VisitedSlot(ar, tw, cur, base, j);
    }
    forall j | base + |tw| <= j < base + 2 * |tw|
      ensures PassSpec(ar, tw, cur)[j] == ar.sub(cur[j - |tw|], ar.mul(tw[j - base - |tw|], cur[j]))
    {
      PartnerSlot(ar, tw, cur, base, j);
    }
  }

  /**
   * Lines 43-46 read off the pass: a visited slot j at offset i of its block
   * and its partner j + blockLen get cur[j] + w * cur[j + blockLen] and
   * cur[j] - w * cur[j + blockLen] with the twiddle w = roots[i * block_step],
   * and every index involved is in bounds.
   */
  lemma PassButterflies<R, C>(ar: Arith<R, C>, roots: seq<C>, cur: seq<C>, blockLen: nat, j: nat)
    requires blockLen >= 1 && |cur| >= 1 && |roots| == |cur| && Multiple(|cur|, 2 * blockLen)
    requires j < |cur| && IsVisited(j, blockLen)
    ensures var step, i := |cur| / (2 * blockLen), Offset(j, 2 * blockLen);
      var next := PassSpec(ar, Twiddles(roots, blockLen, step), cur);
      j + blockLen < |cur| && i * step < |roots| &&
      next[j] == ar.add(cur[j], ar.mul(roots[i * step], cur[j + blockLen])) &&
      next[j + blockLen] == ar.sub(cur[j], ar.mul(roots[i * step], cur[j + blockLen]))
  {
    var m, step := 2 * blockLen, |cur| / (2 * blockLen);
    var tw := Twiddles(roots, blockLen, step);
    var base := j - Offset(j, m);
    OffsetStart(j, m);
    MultipleFits(base, |cur|, m);
    VisitedSlot(ar, tw, cur, base, j);
    PartnerSlot(ar, tw, cur, base, j + blockLen);
    TwiddleValues(roots, blockLen, step);
  }

  /**
   * Lines 42-48: the butterflies of the block of 2 * blockLen slots at base,
   * written into `new_tone`. The block receives the values `spec` prescribes
   * for it, `writes` counts one more store into each slot of the block, and
   * the slots outside the block are left as they were.
   */
  method ButterflyBlock<R, C>(ar: Arith<R, C>, roots: seq<C>, cur: seq<C>, blockLen: nat, blockStep: nat,
                              newTone: array<C>, base: nat, ghost tw: seq<C>, ghost spec: seq<C>,
                              ghost writes: seq<nat>)
    returns (newToneI: nat, ghost writes': seq<nat>)
    requires blockLen >= 1 && |tw| == blockLen && BlockForm(ar, tw, cur, spec, base)
    requires forall t :: 0 <= t < blockLen ==> t * blockStep < |roots| && tw[t] == roots[t * blockStep]
    requires newTone.Length == |cur| && |writes| == |cur|
    requires forall j :: 0 <= j < base ==> newTone[j] == spec[j]
    requires forall j :: 0 <= j < |cur| ==> writes[j] == if j < base then 1 else 0
    modifies newTone
    ensures forall j :: 0 <= j < base + 2 * blockLen ==> newTone[j] == spec[j]
    ensures forall j :: base + 2 * blockLen <= j < newTone.Length ==> newTone[j] == old(newTone[j])
    ensures newToneI == base + blockLen
    ensures |writes'| == |cur|
    ensures forall j :: 0 <= j < |cur| ==> writes'[j] == if j < base + 2 * blockLen then 1 else 0
  {
    writes' := writes;
    newToneI := base;
    var i := 0;
    while i < blockLen
      invariant 0 <= i <= blockLen && newToneI == base + i
      invariant forall j :: 0 <= j < base + i ==> newTone[j] == spec[j]
      invariant forall j :: base + blockLen <= j < base + blockLen + i ==> newTone[j] == spec[j]
      invariant forall j :: base + 2 * blockLen <= j < newTone.Length ==> newTone[j] == old(newTone[j])
      invariant |writes'| == |cur|
      invariant forall j :: 0 <= j < |cur| ==>
        writes'[j] == if j < base + i || base + blockLen <= j < base + blockLen + i then 1 else 0
    {
      var tempVal := ar.mul(roots[i * blockStep], cur[newToneI + blockLen]);
      newTone[newToneI] := ar.add(cur[newToneI], tempVal);
      newTone[newToneI + blockLen] := ar.sub(cur[newToneI], tempVal);
      writes' := writes'[newToneI := writes'[newToneI] + 1];
      writes' := writes'[newToneI + blockLen := writes'[newToneI + blockLen] + 1];
      newToneI := newToneI + 1;
      i := i + 1;
    }
  }

  /**
   * Lines 38 and 40-50: the blocks of one pass, written into a fresh
   * `new_tone` buffer, given the twiddles tw and the values spec that the
   * pass prescribes for every block. The ghost `writes` counts the stores
   * into each slot: every slot is written exactly once.
   */
  method PassBlocks<R, C>(ar: Arith<R, C>, roots: seq<C>, cur: seq<C>, blockLen: nat, blockStep: nat,
                          ghost tw: seq<C>, ghost spec: seq<C>)
    returns (next: seq<C>, ghost writes: seq<nat>)
    requires blockLen >= 1 && Multiple(|cur|, 2 * blockLen) && |tw| == blockLen && |spec| == |cur|
    requires forall t :: 0 <= t < blockLen ==> t * blockStep < |roots| && tw[t] == roots[t * blockStep]
    requires forall base: nat :: Multiple(base, 2 * blockLen) && base < |cur| ==> BlockForm(ar, tw, cur, spec, base)
    ensures next == spec
    ensures writes == seq(|cur|, _ => 1)
  {
    var n := |cur|;
    var newTone := new C[n](_ => ar.zero);
    writes := seq(n, _ => 0);
    var newToneI := 0;
    while newToneI < n
      invariant newToneI <= n && Multiple(newToneI, 2 * blockLen)
      invariant forall j :: 0 <= j < newToneI ==> newTone[j] == spec[j]
      invariant |writes| == n
      invariant forall j :: 0 <= j < n ==> writes[j] == if j < newToneI then 1 else 0
    {
      newToneI, writes := ButterflyBlock(ar, roots, cur, blockLen, blockStep, newTone, newToneI, tw, spec, writes);
      newToneI := newToneI + blockLen;
      assert Multiple(newToneI, 2 * blockLen);
    }
    next := newTone[..];
  }

  /**
   * Lines 38-51: one pass. The result is PassSpec with the twiddles
   * roots[i * block_step], and every slot of `new_tone` is written exactly once.
   */
  method ButterflyPass<R, C>(ar: Arith<R, C>, roots: seq<C>, cur: seq<C>, blockLen: nat)
    returns (next: seq<C>, ghost writes: seq<nat>)
    requires blockLen >= 1 && |cur| >= 1 && Multiple(|cur|, 2 * blockLen) && |roots| == |cur|
    ensures next == PassSpec(ar, Twiddles(roots, blockLen, |cur| / (2 * blockLen)), cur)
    ensures writes == seq(|cur|, _ => 1)
  {
    var blockStep := |cur| / (2 * blockLen);
    ghost var tw := Twiddles(roots, blockLen, blockStep);
    ghost var spec := PassSpec(ar, tw, cur);
    TwiddleValues(roots, blockLen, blockStep);
    forall base: nat | Multiple(base, 2 * blockLen) && base < |cur|
      ensures BlockForm(ar, tw, cur, spec, base)
    {
      BlockValues(ar, tw, cur, base);
    }
    next, writes := PassBlocks(ar, roots, cur, blockLen, blockStep, tw, spec);
  }
}
