/**
 * Unsigned 64-bit words and the bit operations the znode macros use on them.
 *
 * A `uint64_t` is an integer in [0, 2^64). The bitwise AND of C is defined
 * bit by bit on naturals, so that masks can be related to remainders and
 * the results can index arrays directly.
 */
module Bits {

  const UINT64_MAX: int := 0xFFFF_FFFF_FFFF_FFFF

  type uint64 = x: int | 0 <= x <= UINT64_MAX

  /** 2^k */
  function Pow2(k: nat): (p: nat)
    ensures p >= 1
  {
    if k == 0 then 1 else 2 * Pow2(k - 1)
  }

  lemma {:induction false} Pow2Add(a: nat, b: nat)
    ensures Pow2(a + b) == Pow2(a) * Pow2(b)
  {
    if a > 0 {
      Pow2Add(a - 1, b);
      assert Pow2(a + b) == 2 * Pow2(a - 1 + b);
    }
  }

  /** n has exactly one bit set. */
  predicate PowerOfTwo(n: nat)
  {
    n == 1 || (n > 1 && n % 2 == 0 && PowerOfTwo(n / 2))
  }

  /** The position of the single bit of a power of two. */
  function Log2(n: nat): (k: nat)
    requires PowerOfTwo(n)
    ensures Pow2(k) == n
  {
    if n == 1 then 0 else 1 + Log2(n / 2)
  }

  lemma {:induction false} Pow2IsPowerOfTwo(k: nat)
    ensures PowerOfTwo(Pow2(k))
  {
    if k > 0 {
      Pow2IsPowerOfTwo(k - 1);
      assert Pow2(k) / 2 == Pow2(k - 1);
    }
  }

  /** C's `a & b` on unsigned words, one bit at a time from the least significant. */
  function BitAnd(a: nat, b: nat): (r: nat)
    ensures r <= a && r <= b
  {
    if a == 0 || b == 0 then 0
    else 2 * BitAnd(a / 2, b / 2) + (if a % 2 == 1 && b % 2 == 1 then 1 else 0)
  }

  lemma MulAtLeast(d: int, n: int)
    requires d > 0 && n >= 1
    ensures d * n >= d
  {}

  /** A multiple of a positive d strictly between -d and d is zero. */
  lemma MulSmall(d: int, n: int)
    requires d > 0 && -d < d * n < d
    ensures n == 0
  {
    if n > 0 {
      MulAtLeast(d, n);
      assert false;
    } else if n < 0 {
      MulAtLeast(d, -n);
      assert false;
    }
  }

  /** Quotient and remainder are the unique pair with x == d * q + r and 0 <= r < d. */
  lemma DivModUnique(x: int, d: int, q: int, r: int)
    requires d > 0 && x == d * q + r && 0 <= r < d
    ensures x % d == r && x / d == q
  {
    var q', r' := x / d, x % d;
    assert x == d * q' + r';
    assert d * (q' - q) == r - r';
    MulSmall(d, q' - q);
  }

  /** Adding a multiple of d leaves the remainder modulo d unchanged. */
  lemma ModAddMultiple(a: nat, j: nat, d: nat)
    requires d > 0
    ensures (a + j * d) % d == a % d
  {
    var q, r := a / d, a % d;
    assert a == d * q + r;
    assert a + j * d == d * (q + j) + r;
    DivModUnique(a + j * d, d, q + j, r);
  }

  /** x % 2P splits into the low bit of x and (x / 2) % P. */
  lemma ModDouble(x: nat, p: nat)
    requires p > 0
    ensures x % (2 * p) == 2 * ((x / 2) % p) + x % 2
  {
    var h := x / 2;
    var q, t := h / p, h % p;
    assert h == p * q + t;
    assert x == 2 * h + x % 2;
    assert x == (2 * p) * q + (2 * t + x % 2);
    DivModUnique(x, 2 * p, q, 2 * t + x % 2);
  }

  /** Masking with an odd word keeps the low bit and masks the rest with the word halved. */
  lemma BitAndOdd(x: nat, n: nat)
    ensures BitAnd(x, 2 * n + 1) == 2 * BitAnd(x / 2, n) + x % 2
  {
    var m := 2 * n + 1;
    assert m / 2 == n && m % 2 == 1;
  }

  /** The k lowest bits of x, read off one at a time. */
  function LowBits(x: nat, k: nat): nat
  {
    if k == 0 then 0 else 2 * LowBits(x / 2, k - 1) + x % 2
  }

  /** The k lowest bits of x are its remainder modulo 2^k. */
  lemma {:induction false} LowBitsIsMod(x: nat, k: nat)
    ensures LowBits(x, k) == x % Pow2(k)
  {
    if k > 0 {
      var p := Pow2(k - 1);
      assert LowBits(x / 2, k - 1) == (x / 2) % p by {
        LowBitsIsMod(x / 2, k - 1);
      }
      assert 2 * ((x / 2) % p) + x % 2 == x % (2 * p) by {
        ModDouble(x, p);
      }
    }
  }

  /** Masking with 2^k - 1 keeps exactly the k lowest bits. */
  lemma {:induction false} LowMaskIsLowBits(x: nat, k: nat)
    ensures BitAnd(x, Pow2(k) - 1) == LowBits(x, k)
  {
    if k > 0 {
      var n := Pow2(k - 1) - 1;
      assert Pow2(k) - 1 == 2 * n + 1;
      BitAndOdd(x, n);
      LowMaskIsLowBits(x / 2, k - 1);
    }
  }

  /** Masking with 2^k - 1 keeps exactly the remainder modulo 2^k. */
  lemma LowMaskIsMod(x: nat, k: nat)
    ensures BitAnd(x, Pow2(k) - 1) == x % Pow2(k)
  {
    LowMaskIsLowBits(x, k);
    LowBitsIsMod(x, k);
  }

  /** Two distinct single bits share no bit. */
  lemma {:induction false} DistinctBitsDisjoint(i: nat, j: nat)
    requires i != j
    ensures BitAnd(Pow2(i), Pow2(j)) == 0
  {
    if i > 0 && j > 0 {
      DistinctBitsDisjoint(i - 1, j - 1);
    }
  }
}
