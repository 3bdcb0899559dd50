/**
 * Reinterpretation of an arbitrary-precision integer as a signed 256-bit
 * (two's-complement) word, as `toSigned256` does for EVM words.
 *
 * The source masks the integer to its low 256 bits, flips the sign bit with
 * an exclusive or, and subtracts the sign bit's weight. The mask and the xor
 * are written out here bit by bit, so that the range and congruence of the
 * result are proved rather than assumed.
 */
module Signed {

  /** Weight of bit 255, the sign bit of a 256-bit word. */
  const SIGN_BIT: int := 0x8000000000000000000000000000000000000000000000000000000000000000

  /** The 256 one-bits the source masks with. */
  const WORD_MASK: int := 0xffffffffffffffffffffffffffffffffffffffffffffffffffffffffffffffff

  /** Number of distinct 256-bit words. */
  const WORD: int := WORD_MASK + 1

  /** 2 to the power k. */
  function Pow2(k: nat): (r: nat)
    ensures r >= 1
  {
    if k == 0 then 1 else 2 * Pow2(k - 1)
  }

  /** Exponents add when powers of two multiply. */
  lemma {:induction false} Pow2Add(a: nat, b: nat)
    ensures Pow2(a + b) == Pow2(a) * Pow2(b)
    decreases a
  {
    if a > 0 {
      Pow2Add(a - 1, b);
    }
  }

  /**
   * The hexadecimal constants of the source are the powers of two they stand
   * for. The exponent is a parameter fixed by the precondition rather than a
   * literal: with a literal argument the verifier would unfold `Pow2` all 256
   * times at every use.
   */
  lemma WordConstants(k: nat)
    requires k == 256
    ensures Pow2(k - 1) == SIGN_BIT
    ensures Pow2(k) == WORD
  {
    // Square up from Pow2(1) = 2 to Pow2(256), one doubling of the exponent at a time.
    Pow2Add(1, 1);
    Pow2Add(2, 2);
    assert Pow2(4) == 0x10;
    Pow2Add(4, 4);
    Pow2Add(8, 8);
    assert Pow2(16) == 0x10000;
    Pow2Add(16, 16);
    Pow2Add(32, 32);
    assert Pow2(64) == 0x10000000000000000;
    Pow2Add(64, 64);
    Pow2Add(128, 128);
    assert Pow2(256) == 2 * Pow2(255);
  }

  /**
   * Python's `a & b` for a non-negative mask `b`, on Python's unbounded
   * two's-complement integers: bit i of the result is set exactly when bit i
   * is set in both operands. Halving with `/` and taking `% 2` are floor
   * operations for the divisor 2, so they read the bits of a negative `a`
   * the way Python does.
   */
  function And(a: int, b: nat): nat
    decreases b
  {
    if b == 0 then 0 else 2 * And(a / 2, b / 2) + (a % 2) * (b % 2)
  }

  /** Python's `a ^ b` on non-negative integers, bit by bit. */
  function Xor(a: nat, b: nat): nat
    decreases a + b
  {
    if a == 0 && b == 0 then 0 else 2 * Xor(a / 2, b / 2) + (a % 2 + b % 2) % 2
  }

  /** A positive multiple of a positive number is at least that number. */
  lemma MulAtLeast(d: int, t: int)
    requires d > 0 && t >= 1
    ensures d * t >= d
  {
    assert d * t == d * (t - 1) + d;
  }

  /** Euclidean division is unique: a quotient and an in-range remainder determine `/` and `%`. */
  lemma ModUnique(a: int, d: int, q: int, x: int)
    requires 0 <= x < d
    requires a == d * q + x
    ensures a / d == q && a % d == x
  {
    var q', x' := a / d, a % d;
    assert a == d * q' + x';
    if q' < q {
      assert d * (q - q') == d * q - d * q';
      MulAtLeast(d, q - q');
    } else if q < q' {
      assert d * (q' - q) == d * q' - d * q;
      MulAtLeast(d, q' - q);
    }
  }

  /** The remainder modulo 2p, split into its lowest bit and the remainder of the halved value modulo p. */
  lemma ModDouble(a: int, p: int)
    requires p >= 1
    ensures a % (2 * p) == 2 * ((a / 2) % p) + a % 2
  {
    var q, s := (a / 2) / p, (a / 2) % p;
    assert a == 2 * (a / 2) + a % 2;
    assert a / 2 == p * q + s;
    assert a == (2 * p) * q + (2 * s + a % 2);
    ModUnique(a, 2 * p, q, 2 * s + a % 2);
  }

  /** A mask of k+1 one-bits takes the lowest bit of `a` and masks the rest with k one-bits. */
  lemma AndStep(a: int, p: nat)
    requires p >= 1
    ensures And(a, 2 * p - 1) == 2 * And(a / 2, p - 1) + a % 2
  {
    assert (2 * p - 1) / 2 == p - 1 && (2 * p - 1) % 2 == 1;
  }

  /** Masking with k one-bits keeps the low k bits: the Euclidean remainder modulo 2^k, also for negative `a`. */
  lemma {:induction false} AndLowBits(a: int, k: nat)
    ensures And(a, Pow2(k) - 1) == a % Pow2(k)
    decreases k
  {
    if k > 0 {
      var p := Pow2(k - 1);
      AndStep(a, p);
      AndLowBits(a / 2, k - 1);
      ModDouble(a, p);
    }
  }

  /** Flipping bit k of a (k+1)-bit value adds 2^k when the bit was clear and subtracts it when it was set. */
  lemma {:induction false} XorTopBit(m: nat, k: nat)
    requires m < Pow2(k + 1)
    ensures Xor(m, Pow2(k)) == if m < Pow2(k) then m + Pow2(k) else m - Pow2(k)
    decreases k
  {
    if k == 0 {
      assert Xor(0, 0) == 0;
      assert Xor(m, 1) == 2 * Xor(m / 2, 0) + (m % 2 + 1) % 2;
    } else {
      var p := Pow2(k - 1);
      assert Pow2(k) / 2 == p && Pow2(k) % 2 == 0;
      XorTopBit(m / 2, k - 1);
      assert Xor(m, Pow2(k)) == 2 * Xor(m / 2, p) + m % 2;
    }
  }

  /** The sign-bit flip of the masked word is the arithmetic wrap of `n` into the signed range. */
  lemma FlipSignBit(n: int)
    ensures Xor(And(n, WORD_MASK), SIGN_BIT) - SIGN_BIT == Wrapped(n)
  {
    MaskIsMod(n);
    FlipIsShift(And(n, WORD_MASK));
  }

  /** Masking with the 256 one-bits keeps `n` modulo 2^256. */
  lemma MaskIsMod(n: int)
    ensures And(n, WORD_MASK) == n % WORD
  {
    var k: nat := 256;
    WordConstants(k);
    AndLowBits(n, k);
  }

  /** Flipping the sign bit of a 256-bit word, less the sign bit's weight, is the signed reading of the word. */
  lemma FlipIsShift(m: nat)
    requires m < WORD
    ensures Xor(m, SIGN_BIT) - SIGN_BIT == if m < SIGN_BIT then m else m - WORD
  {
    var k: nat := 256;
    WordConstants(k);
    XorTopBit(m, k - 1);
  }

  /** `x` and `y` leave the same remainder modulo `d`: they differ by a multiple of `d`. */
  predicate Congruent(x: int, y: int, d: int)
    requires d > 0
  {
    (x - y) % d == 0
  }

  /** `n` moved into [-2^255, 2^255) by a multiple of 2^256, computed with `%`. */
  function Wrapped(n: int): int
  {
    var m := n % WORD;
    if m < SIGN_BIT then m else m - WORD
  }

  /** `Wrapped` lands in the signed range, agrees with `n` modulo 2^256, and is the identity below the sign bit. */
  lemma WrapWord(n: int)
    ensures -SIGN_BIT <= Wrapped(n) < SIGN_BIT
    ensures Congruent(Wrapped(n), n, WORD)
    ensures 0 <= n < SIGN_BIT ==> Wrapped(n) == n
    ensures SIGN_BIT <= n < WORD ==> Wrapped(n) == n - WORD
  {
    Wrap(n, SIGN_BIT);
  }

  /** Wrapping `n` into [-h, h) modulo 2h, written with a symbolic half-range `h`. */
  lemma Wrap(n: int, h: int)
    requires h > 0
    ensures var m := n % (2 * h);
      var r := if m < h then m else m - 2 * h;
      && -h <= r < h
      && Congruent(r, n, 2 * h)
      && (0 <= n < h ==> r == n)
      && (h <= n < 2 * h ==> r == n - 2 * h)
  {
    var w := 2 * h;
    var m, q := n % w, n / w;
    assert n == w * q + m;
    if m < h {
      assert m - n == w * -q + 0;
      ModUnique(m - n, w, -q, 0);
    } else {
      assert m - w - n == w * (-q - 1) + 0;
      ModUnique(m - w - n, w, -q - 1, 0);
    }
    if 0 <= n < w {
      ModUnique(n, w, 0, n);
    }
  }

  /**
   * The signed 256-bit word whose two's-complement bits are the low 256 bits
   * of `n`: it lies in [-2^255, 2^255), agrees with `n` modulo 2^256, leaves
   * the non-negative words below the sign bit alone and moves the words with
   * the sign bit set down by 2^256. It equals the arithmetic reference
   * `Wrapped`, which uses no bit operations.
   */
  function ToSigned256(n: int): (r: int)
    ensures r == Wrapped(n)
    ensures -SIGN_BIT <= r < SIGN_BIT
    ensures Congruent(r, n, WORD)
    ensures 0 <= n < SIGN_BIT ==> r == n
    ensures SIGN_BIT <= n < WORD ==> r == n - WORD
  {
    FlipSignBit(n);
    WrapWord(n);
    Xor(And(n, WORD_MASK), SIGN_BIT) - SIGN_BIT
  }

  /** Adding the modulus leaves the remainder unchanged. */
  lemma ModShift(n: int, d: int)
    requires d > 0
    ensures (n + d) % d == n % d
  {
    var q, m := n / d, n % d;
    assert n + d == d * (q + 1) + m;
    ModUnique(n + d, d, q + 1, m);
  }

  /** Words that differ by 2^256 have the same signed reading. */
  lemma ToSigned256Periodic(n: int)
    ensures ToSigned256(n + WORD) == ToSigned256(n)
  {
    ModShift(n, WORD);
  }

  /** Reinterpreting an already signed word gives it back. */
  lemma ToSigned256Idempotent(n: int)
    ensures ToSigned256(ToSigned256(n)) == ToSigned256(n)
  {
    var r := ToSigned256(n);
    if r >= 0 {
      ModUnique(r, WORD, 0, r);
    } else {
      ModUnique(r, WORD, -1, r + WORD);
    }
  }
}
