# FFT_rust: the index machinery of `fft`

`fft` in `src/lib.rs` is an iterative radix-2 Cooley-Tukey transform. It has
five steps:

- It rejects unsuitable lengths.
- It computes the bit width `n_bits`.
- It builds the bit-reversal table `reverse_positions` in O(n). Each entry
  comes from the entry of the index with its top bit cleared.
- It loads the samples in bit-reversed order into complex values.
- It runs `log2 n` butterfly passes, each into a fresh `new_tone` buffer.
  `block_len` doubles from 1, and `block_step = n / (2 * block_len)` selects
  the twiddle factors.

This project models those steps in Dafny and proves what they compute. The
sample values stay abstract: `Complex32` addition, subtraction and
multiplication, the real-to-complex conversion and the twiddle value
`root(i, n)` are uninterpreted fields of `Butterfly.Arith`. What the proofs
cover is the integer and array logic:

- For `n = 2^k`, the O(n) table equals the textbook k-bit reversal, and that
  reversal is an involution and a permutation.
- The load puts every sample in exactly one slot.
- Every index a pass reads or writes is in bounds, including the twiddle
  index `i * block_step`.
- Every slot of `new_tone` is written exactly once per pass, with
  `cur[pos] ± roots[i * block_step] * cur[pos + block_len]`.
- There are exactly `log2 n` passes.
- The whole method computes the function `Fft.FftSpec`.

The modules follow the code:

- `Bits` models `&`, `|`, `^` and `1 << k` on naturals. `Bits.Shl1` takes the
  width of the shifted type and requires the shift amount to be below it, as
  Rust does.
- `Reversal` covers lines 15-23.
- `Butterfly` covers one pass, lines 38-51.
- `Fft` covers the guard, `n_bits`, the root table, the load and the outer
  loop of lines 36-53 (`Fft.Passes`).

The source's single function is split into methods. Each loop is one method:
`NumBits`, `ReversePositions`, `PrecalcRoots`, `PermutedLoad`, `ButterflyBlock`,
`PassBlocks` and `Passes`. `StoreReversal` and `ButterflyPass` are loop bodies.
`Transform` runs lines 9-55 in order, and `Fft` adds the guard. Each method is
proved against a specification.

The length guard is modelled twice. `Fft.GuardAsWritten` is the code as
written. `Fft.Guard` makes two corrections, and `Fft.Fft` uses it (see
Findings). It tests for a power of two, as the panic message asks. It also
rejects lengths above `i32::MAX`, which the cast at line 5 would truncate.

## Model

| member | source | states |
|---|---|---|
| Bits.AndPredecessor | src/lib.rs:18 | `i & (i - 1) == 0` holds exactly when i is a power of two |
| Bits.Log2Step | src/lib.rs:16-20 | from i - 1 to i, the highest set bit moves up by one exactly when i is a power of two |
| Bits.XorClearsTopBit | src/lib.rs:21 | `i ^ (1 << h)`, with h the top bit of i, is i with that bit removed |
| Bits.OrSetsClearBit | src/lib.rs:22 | or-ing `1 << m` into r adds 2^m when bits 0..m of r are clear |
| Bits.PowerOfTwoIff | src/lib.rs:7 | the power-of-two predicate holds exactly for the values 2^k |
| Reversal.BitReverse | src/lib.rs:15-23 | the k-bit reversal is below 2^k |
| Reversal.ReverseInvolution | src/lib.rs:15-23 | reversing a k-bit index twice gives the index back |
| Reversal.ReverseIsPermutation | src/lib.rs:15-23 | k-bit reversal maps 0..2^k-1 into itself, one-to-one, and is its own inverse |
| Reversal.ReverseAddTopBit | src/lib.rs:22 | setting bit h of an index below 2^h sets bit k-1-h of its reversal |
| Reversal.HighBitStep | src/lib.rs:16-20 | after the test of line 18, `high_bit` is floor(log2 i) |
| Reversal.ReverseStep | src/lib.rs:21-22 | with h = floor(log2 i): `i ^ (1 << h) < i`, and rev(i) is rev(i ^ (1 << h)) with `1 << (k - h - 1)` or-ed in |
| Reversal.StoreReversal | src/lib.rs:21-22 | entry i becomes the reversal of i; earlier entries stay correct and later ones are unchanged; both shift amounts are below the shifted type's width |
| Reversal.ReversePositions | src/lib.rs:15-23 | the table has length n and entry i is the n_bits-bit reversal of i |
| Butterfly.MultipleIsMod | src/lib.rs:41-50 | a block count by repeated subtraction agrees with `n % m == 0` |
| Butterfly.OffsetIsMod | src/lib.rs:41-50 | the offset of slot j in its block is `j % m` |
| Butterfly.MultiplePow2 | src/lib.rs:36-39 | 2^k slots split into whole blocks of `2 * block_len` = 2^s, s <= k |
| Butterfly.TwiddleIndex | src/lib.rs:39-43 | `block_step >= 1` and the twiddle index `i * block_step < n` for every i < `block_len` |
| Butterfly.PartnerInBounds | src/lib.rs:44-46 | a visited slot's partner `pos + block_len` is below n; any other slot is at least `block_len` |
| Butterfly.SlotInBounds | src/lib.rs:39-46 | every index a pass computes from a slot is in bounds, twiddle index included |
| Butterfly.SlotPartner | src/lib.rs:41-50 | a slot is visited exactly when it is not the partner of the visited slot `block_len` below it |
| Butterfly.PassPartition | src/lib.rs:41-50 | the visited slots and their partners cover 0..n-1, each slot exactly once |
| Butterfly.PassSpec | src/lib.rs:38-51 | a pass keeps the length |
| Butterfly.TwiddleValues | src/lib.rs:43 | twiddle t of a pass is `precalc_roots[t * block_step]`, with an in-bounds index |
| Butterfly.VisitedSlot | src/lib.rs:45 | slot j of a block's first half gets `cur[j] + tw[j - base] * cur[j + block_len]` |
| Butterfly.PartnerSlot | src/lib.rs:46 | slot j of a block's second half gets `cur[j - block_len] - tw[j - base - block_len] * cur[j]` |
| Butterfly.BlockValues | src/lib.rs:42-48 | the pass specification gives every block the values the inner loop writes |
| Butterfly.PassButterflies | src/lib.rs:43-46 | a visited slot and its partner get `cur[pos] ± roots[i * block_step] * cur[pos + block_len]` |
| Butterfly.ButterflyBlock | src/lib.rs:42-48 | the inner loop fills the block with its pass values, writes each block slot once and leaves `new_tone_i` at `base + block_len` |
| Butterfly.PassBlocks | src/lib.rs:38-50 | the loop over blocks fills every slot of `new_tone` with its pass value, each slot written exactly once |
| Butterfly.ButterflyPass | src/lib.rs:38-51 | one pass yields the pass specification with twiddles `roots[i * (n / (2 * block_len))]`, each slot written once |
| Fft.AsI32 | src/lib.rs:5 | `len as i32` is in i32 range, agrees with len modulo 2^32, and equals len when len fits |
| Fft.GuardAsWritten | src/lib.rs:5-8 | as written, the guard fails exactly for even lengths |
| Fft.GuardAsWrittenRejectsPowersOfTwo | src/lib.rs:6-8 | as written, every power of two other than 1 is rejected |
| Fft.GuardAsWrittenRejectsTwo | src/lib.rs:6-8 | as written, the power of two 2 is rejected |
| Fft.GuardAsWrittenTruncates | src/lib.rs:5-8 | as written, a length of 2^32 + 1 passes the guard as n = 1, and the corrected guard rejects it |
| Fft.Guard | src/lib.rs:5-8 | the corrected guard accepts exactly the positive powers of two that fit i32, and passes the length unchanged |
| Fft.PowerOfTwoFitsI32 | src/lib.rs:5-11 | a power of two that fits i32 is at most 2^30 |
| Fft.NumBits | src/lib.rs:9-13 | `n_bits` is the least b with n <= 2^b, and at most 30, so the shift of line 11 stays below 32 |
| Fft.WidthOfPowerOfTwo | src/lib.rs:9-13 | for n = 2^k that least width is k |
| Fft.TableIsInvolution | src/lib.rs:15-23 | for n = 2^k the table's entries are below n, rev(rev(i)) = i, and distinct slots hold distinct entries |
| Fft.PrecalcRoots | src/lib.rs:25-29 | the root table has n entries, entry i being root(i, n) |
| Fft.PermutedLoad | src/lib.rs:31-34 | `current_tone[i]` is sample `rev[i]` as a complex value with zero imaginary part |
| Fft.LoadHoldsEachSampleOnce | src/lib.rs:31-34 | sample s lands at slot rev(s), and no two slots take the same sample |
| Fft.PassFits | src/lib.rs:36-52 | half-block length 2^s doubles to 2^(s+1), and its blocks tile 2^k slots |
| Fft.Stages | src/lib.rs:36-53 | the passes keep the length |
| Fft.FftSpec | src/lib.rs:4-56 | the result is an error exactly when the length is not a power of two that fits i32; otherwise its length is the input's |
| Fft.Passes | src/lib.rs:36-53 | the outer loop runs exactly log2 n passes (`block_len` = 1, 2, ..., n/2) and yields the composed passes |
| Fft.Transform | src/lib.rs:9-55 | for n = 2^k the table, root table, load and passes yield the specified result |
| Fft.Fft | src/lib.rs:4-56 | `fft` with the corrected guard computes FftSpec and makes log2 n passes |

## Left out

- `fft_freq`, `normalize_complex_vector` and `generate_sin_wave` (lines 58-86) are not modelled. They only do `f32` arithmetic, `sqrt` and `sin`.
- The values of `precalc_roots` (cos and sin of 2πi/n in `f32`) and the `Complex32` arithmetic of lines 43-46 are uninterpreted `Arith` fields. No property of the numbers is claimed. The DFT equation is not proved.
- Panics are not modelled as process termination. The length check returns `Err`. Every other panic site is proved unreachable once the guard holds. That covers every index, and the shift amounts at lines 11, 21 and 22, which stay within the shifted type's width (the preconditions of `Bits.Shl1`).
- Odd lengths pass the guard as written, and what happens next depends on the cast value n of line 5. `Fft.Fft` uses the corrected guard, so it follows none of these cases:
  - For odd n with 3 <= n <= 2^30, the source panics on an out-of-range index. This happens either in the load at line 33 or in the first pass's read of `current_tone` at line 44. For n = 5 the table is [0, 4, 2, 6, 1], so `tone[6]` is read. For n = 3 the table is [0, 2, 1], and `current_tone[3]` is read.
  - For odd n above 2^30, the `n_bits` loop of lines 11-13 does not end normally (see `Fft.NumBits` below).
  - For a negative n, the test at line 11 fails at once, and the allocation `vec![0; n as usize]` at line 15 fails.
  - For n = 1, the source returns one value. For a length other than 1, such as 2^32 + 1, this is the second row under Findings.
- Fft.NumBits: requires n <= 2^30. For larger n, `1 << n_bits` overflows `i32` before it reaches n, and the source loop does not end normally.
- Fft.PermutedLoad: requires every table entry to be below n, where the source would panic on an out-of-range entry. `Fft.Fft` only calls it with the reversal table, whose entries always satisfy this.
- Once the guard holds, `i32` arithmetic other than the cast at line 5 cannot overflow, because every value stays below 2^31. That arithmetic is written on unbounded integers.
- `reverse_positions` and `new_tone` are arrays filled in place. `precalc_roots` and `current_tone` are sequences that are extended or replaced, as the source does with `push` and `current_tone = new_tone`.
- The write counts per slot are ghost state. The source has no counterpart for them.

## Findings

| source | as written | input that shows it | evidently intended | confidence | as-written member | corrected member |
|---|---|---|---|---|---|---|
| src/lib.rs:6-8 | `if n % 2 == 0` panics, so every even length is rejected, and the only power of two accepted is 1 | a `tone` of length 2, or of any power of two above 1 | panic unless n is a positive power of two, as the panic message says; the test would be `n & (n - 1) != 0` | not executed | Fft.GuardAsWrittenRejectsTwo | Fft.Guard |
| src/lib.rs:5-8 | `tone.len() as i32` keeps the low 32 bits, so a length of 2^32 + 1 becomes n = 1, passes the odd-length test, and lines 9-55 return a single value | a `tone` of length 2^32 + 1 | reject lengths that do not fit `i32` | not executed | Fft.GuardAsWrittenTruncates | Fft.Guard |
