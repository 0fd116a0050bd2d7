/**
 * Powers of two and the bitwise operators `&`, `|`, `^` and `<<` that the
 * index code of `fft` applies to non-negative integers, defined bit by bit
 * on `nat` (least significant bit first).
 */
module Bits {

  /** `1 << k`. */
  function Pow2(k: nat): (r: nat)
    ensures r >= 1
  {
    if k == 0 then 1 else 2 * Pow2(k - 1)
  }

  /**
   * `1 << s` on an integer of `width` bits. Rust panics when the shift amount
   * is outside 0..width-1, so the amount is a precondition and every call
   * site proves that its shift does not panic.
   */
  function Shl1(s: int, width: nat): nat
    requires 0 <= s < width
  {
    Pow2(s)
  }

  /** floor(log2 n): the position of the highest set bit of `n`. */
  function Log2(n: nat): (k: nat)
    requires n >= 1
    ensures Pow2(k) <= n < Pow2(k + 1)
  {
    if n == 1 then 0 else 1 + Log2(n / 2)
  }

  /** `n` is 2^k for some k. */
  predicate IsPowerOfTwo(n: nat) {
    n >= 1 && Pow2(Log2(n)) == n
  }

  /** Bitwise and, `a & b`. */
  function And(a: nat, b: nat): nat {
    if a == 0 || b == 0 then 0
    else 2 * And(a / 2, b / 2) + (if a % 2 == 1 && b % 2 == 1 then 1 else 0)
  }

  /** Bitwise or, `a | b`. */
  function Or(a: nat, b: nat): nat {
    if a == 0 then b
    else if b == 0 then a
    else 2 * Or(a / 2, b / 2) + (if a % 2 == 1 || b % 2 == 1 then 1 else 0)
  }

  /** Bitwise exclusive or, `a ^ b`. */
  function Xor(a: nat, b: nat): nat {
    if a == 0 then b
    else if b == 0 then a
    else 2 * Xor(a / 2, b / 2) + (if a % 2 != b % 2 then 1 else 0)
  }

  lemma {:induction false} Pow2Add(a: nat, b: nat)
    ensures Pow2(a + b) == Pow2(a) * Pow2(b)
  {
    if a > 0 {
      Pow2Add(a - 1, b);
    }
  }

  lemma {:induction false} Pow2Monotone(a: nat, b: nat)
    ensures a < b <==> Pow2(a) < Pow2(b)
    decreases a + b
  {
    if a > 0 && b > 0 {
      Pow2Monotone(a - 1, b - 1);
    } else if b > 0 {
      Pow2Monotone(0, b - 1);
    } else if a > 0 {
      Pow2Monotone(a - 1, 0);
    }
  }

  /** The exponent of a power of two is determined by its bounds. */
  lemma Log2Unique(n: nat, k: nat)
    requires Pow2(k) <= n < Pow2(k + 1)
    ensures Log2(n) == k
  {
    var h := Log2(n);
    Pow2Monotone(h, k + 1);
    Pow2Monotone(k, h + 1);
  }

  lemma PowerOfTwoPow2(k: nat)
    ensures IsPowerOfTwo(Pow2(k)) && Log2(Pow2(k)) == k
  {
    Pow2Monotone(k, k + 1);
    Log2Unique(Pow2(k), k);
  }

  /** `n` is a power of two exactly when it is 2^k for some k. */
  lemma PowerOfTwoIff(n: nat)
    ensures IsPowerOfTwo(n) <==> exists k: nat :: Pow2(k) == n
  {
    if exists k: nat :: Pow2(k) == n {
      var k: nat :| Pow2(k) == n;
      PowerOfTwoPow2(k);
    }
  }

  /**
   * Going from i - 1 to i, the highest set bit moves up by one exactly when
   * i is a power of two.
   */
  lemma Log2Step(i: nat)
    requires i >= 2
    ensures Log2(i) == if IsPowerOfTwo(i) then Log2(i - 1) + 1 else Log2(i - 1)
  {
    var h := Log2(i - 1);
    if i == Pow2(h + 1) {
      PowerOfTwoPow2(h + 1);
    } else {
      Log2Unique(i, h);
    }
  }

  lemma {:induction false} AndSelf(a: nat)
    ensures And(a, a) == a
  {
    if a > 0 {
      AndSelf(a / 2);
    }
  }

  /** The test at line 18: `i & (i - 1) == 0` holds exactly for powers of two. */
  lemma {:induction false} AndPredecessor(i: nat)
    requires i >= 1
    ensures And(i, i - 1) == 0 <==> IsPowerOfTwo(i)
  {
    if i >= 2 {
      PowerOfTwoHalf(i);
      if i % 2 == 0 {
        AndPredecessor(i / 2);
        AndEven(i);
      } else {
        AndOdd(i);
      }
    }
  }

  lemma AndEven(i: nat)
    requires i >= 2 && i % 2 == 0
    ensures And(i, i - 1) == 2 * And(i / 2, i / 2 - 1)
  {
    assert (i - 1) / 2 == i / 2 - 1 && (i - 1) % 2 == 1;
  }

  lemma AndOdd(i: nat)
    requires i >= 3 && i % 2 == 1
    ensures And(i, i - 1) == 2 * (i / 2)
  {
    AndSelf(i / 2);
    assert (i - 1) / 2 == i / 2 && (i - 1) % 2 == 0;
  }

  /** A number of at least 2 is a power of two exactly when it is even and its half is one. */
  lemma PowerOfTwoHalf(i: nat)
    requires i >= 2
    ensures IsPowerOfTwo(i) <==> i % 2 == 0 && IsPowerOfTwo(i / 2)
  {
    assert Log2(i) == 1 + Log2(i / 2);
    assert Pow2(Log2(i)) == 2 * Pow2(Log2(i / 2));
  }

  /** `i ^ (1 << h)` clears the highest set bit of i when h is its position. */
  lemma {:induction false} XorClearsTopBit(i: nat, h: nat)
    requires Pow2(h) <= i < Pow2(h + 1)
    ensures Xor(i, Pow2(h)) == i - Pow2(h)
  {
    if h > 0 {
      XorClearsTopBit(i / 2, h - 1);
    }
  }

  /** The lowest m bits of r are clear. */
  predicate LowBitsClear(r: nat, m: nat) {
    m == 0 || (r % 2 == 0 && LowBitsClear(r / 2, m - 1))
  }

  /** `r | (1 << m)` adds 2^m when bit m and every bit below it are clear in r. */
  lemma {:induction false} OrSetsClearBit(r: nat, m: nat)
    requires LowBitsClear(r, m + 1)
    ensures Or(r, Pow2(m)) == r + Pow2(m)
  {
    if r != 0 && m > 0 {
      OrSetsClearBit(r / 2, m - 1);
      assert Or(r, Pow2(m)) == 2 * Or(r / 2, Pow2(m - 1));
    }
  }

  // Arithmetic facts the index proofs use.

  lemma MulDistributes(a: nat, b: nat, c: nat)
    ensures (a + b) * c == a * c + b * c
  {
  }

  lemma MulMonotone(a: nat, b: nat, c: nat)
    requires a <= b
    ensures a * c <= b * c
  {
  }

  /** Quotient and remainder are determined by j == q * m + r with r < m. */
  lemma DivModUnique(j: nat, m: nat, q: nat, r: nat)
    requires m >= 1 && r < m && j == q * m + r
    ensures j / m == q && j % m == r
  {
    var q', r' := j / m, j % m;
    assert j == q' * m + r';
    if q' < q {
      MulMonotone(q' + 1, q, m);
      MulDistributes(q', 1, m);
    } else if q < q' {
      MulMonotone(q + 1, q', m);
      MulDistributes(q, 1, m);
    }
  }

  /** Taking one m off j lowers the quotient by one and keeps the remainder. */
  lemma ModSubtract(j: nat, m: nat)
    requires m >= 1 && j >= m
    ensures (j - m) % m == j % m && (j - m) / m == j / m - 1
  {
    var q, r := (j - m) / m, (j - m) % m;
    assert j - m == q * m + r;
    MulDistributes(q, 1, m);
    DivModUnique(j, m, q + 1, r);
  }
}
