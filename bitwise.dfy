/** C unsigned integer arithmetic on naturals.

    `uint8_t`, `uint16_t` and `uint32_t` values are the naturals below 2^8,
    2^16 and 2^32. Masks with a run of low ones (`& 0xF`, `& 0xFF`) are `%`
    by a power of two, right shifts are `/` by a power of two, and a left
    shift whose result is stored in an n-bit variable is a multiplication
    taken modulo 2^n. The bitwise `^` and `|` are the functions `Xor` and
    `Or` below, defined bit by bit on the n low bits of their operands. */
module Bitwise {

  /** `uint8_t` */
  type Byte = x: nat | x < 0x100
  /** `uint16_t` */
  type Word = x: nat | x < 0x1_0000
  /** `uint32_t` */
  type Long = x: nat | x < 0x1_0000_0000

  /** `2^n`. */
  function Pow2(n: nat): (p: nat)
    ensures p > 0
  {
    if n == 0 then 1 else 2 * Pow2(n - 1)
  }

  /** The powers of two that the widths of the codec use. */
  lemma Pow2Values()
    ensures Pow2(4) == 0x10 && Pow2(8) == 0x100 && Pow2(12) == 0x1000
    ensures Pow2(16) == 0x1_0000 && Pow2(32) == 0x1_0000_0000
  {
    assert Pow2(4) == 0x10;
    assert Pow2(8) == 0x100;
    assert Pow2(12) == 0x1000;
    assert Pow2(16) == 0x1_0000;
    assert Pow2(20) == 0x10_0000;
    assert Pow2(24) == 0x100_0000;
    assert Pow2(28) == 0x1000_0000;
  }

  /** A wider field holds every value of a narrower one. */
  lemma {:induction false} Pow2Monotone(a: nat, b: nat)
    requires a <= b
    ensures Pow2(a) <= Pow2(b)
  {
    if a < b {
      Pow2Monotone(a, b - 1);
    }
  }

  lemma MulAtLeast(k: nat, d: nat)
    requires k >= 1
    ensures k * d >= d
  {
  }

  /** Division with remainder has one answer: a quotient and a remainder
      below the divisor that give back `x` are `x / d` and `x % d`. */
  lemma DivModOf(x: nat, d: nat, q: nat, r: nat)
    requires 0 < d && r < d && x == q * d + r
    ensures x / d == q && x % d == r
  {
    var q', r' := x / d, x % d;
    assert x == q' * d + r';
    if q' < q {
      assert q * d - q' * d == (q - q') * d;
      MulAtLeast(q - q', d);
    } else if q' > q {
      assert q' * d - q * d == (q' - q) * d;
      MulAtLeast(q' - q, d);
    }
  }

  /** `x & (2^n - 1)`: the `n` low bits of `x`. */
  function LowBits(x: nat, n: nat): (r: nat)
    ensures r < Pow2(n)
  {
    if n == 0 then 0 else x % 2 + 2 * LowBits(x / 2, n - 1)
  }

  /** `x >> n`. */
  function ShiftRight(x: nat, n: nat): nat {
    if n == 0 then x else ShiftRight(x / 2, n - 1)
  }

  /** A number is its `n` low bits plus `2^n` times what a shift by `n`
      leaves. */
  lemma {:induction false} Decompose(x: nat, n: nat)
    ensures x == LowBits(x, n) + Pow2(n) * ShiftRight(x, n)
  {
    if n > 0 {
      Decompose(x / 2, n - 1);
      Recombine(x, LowBits(x / 2, n - 1), Pow2(n - 1), ShiftRight(x / 2, n - 1));
    }
  }

  /** One bit below a decomposed half. */
  lemma Recombine(x: nat, low: nat, p: nat, s: nat)
    requires x / 2 == low + p * s
    ensures x == (x % 2 + 2 * low) + (2 * p) * s
  {
    assert (2 * p) * s == 2 * (p * s);
  }

  /** `& 0xF` and `>> 4`. */
  lemma Nibble(x: nat)
    ensures LowBits(x, 4) == x % 0x10 && ShiftRight(x, 4) == x / 0x10
  {
    Pow2Values();
    Decompose(x, 4);
  }

  /** `& 0xFF` and `>> 8`. */
  lemma Octet(x: nat)
    ensures LowBits(x, 8) == x % 0x100 && ShiftRight(x, 8) == x / 0x100
  {
    Pow2Values();
    Decompose(x, 8);
  }

  /** `>> 12`. */
  lemma ShiftBy12(x: nat)
    ensures ShiftRight(x, 12) == x / 0x1000
  {
    Pow2Values();
    Decompose(x, 12);
  }

  /** Shifting twice is shifting once by the sum. */
  lemma {:induction false} ShiftShift(x: nat, a: nat, b: nat)
    ensures ShiftRight(ShiftRight(x, a), b) == ShiftRight(x, a + b)
  {
    if a > 0 {
      ShiftShift(x / 2, a - 1, b);
    }
  }

  /** A number that fits in `n` bits is its own `n` low bits. */
  lemma {:induction false} LowBitsOfSmall(x: nat, n: nat)
    requires x < Pow2(n)
    ensures LowBits(x, n) == x
  {
    if n > 0 {
      LowBitsOfSmall(x / 2, n - 1);
    }
  }

  /** `a ^ b` on `n`-bit unsigned integers. */
  function Xor(a: nat, b: nat, n: nat): (r: nat)
    ensures r < Pow2(n)
  {
    if n == 0 then 0 else (if a % 2 == b % 2 then 0 else 1) + 2 * Xor(a / 2, b / 2, n - 1)
  }

  /** `a | b` on `n`-bit unsigned integers. */
  function Or(a: nat, b: nat, n: nat): (r: nat)
    ensures r < Pow2(n)
  {
    if n == 0 then 0 else (if a % 2 == 1 || b % 2 == 1 then 1 else 0) + 2 * Or(a / 2, b / 2, n - 1)
  }

  /** The low bit of an XOR and what lies above it. */
  lemma XorStep(a: nat, b: nat, n: nat)
    requires n > 0
    ensures Xor(a, b, n) % 2 == (if a % 2 == b % 2 then 0 else 1)
    ensures Xor(a, b, n) / 2 == Xor(a / 2, b / 2, n - 1)
  {
  }

  /** The low bit of the low bits and what lies above it. */
  lemma LowBitsStep(x: nat, n: nat)
    requires n > 0
    ensures LowBits(x, n) % 2 == x % 2 && LowBits(x, n) / 2 == LowBits(x / 2, n - 1)
  {
  }

  lemma {:induction false} XorCommutes(a: nat, b: nat, n: nat)
    ensures Xor(a, b, n) == Xor(b, a, n)
  {
    if n > 0 {
      XorCommutes(a / 2, b / 2, n - 1);
    }
  }

  lemma {:induction false} XorAssociates(a: nat, b: nat, c: nat, n: nat)
    ensures Xor(Xor(a, b, n), c, n) == Xor(a, Xor(b, c, n), n)
  {
    if n > 0 {
      XorStep(a, b, n);
      XorStep(b, c, n);
      XorAssociates(a / 2, b / 2, c / 2, n - 1);
    }
  }

  /** The `k` low bits of an `n`-bit XOR are the `k`-bit XOR. */
  lemma {:induction false} XorLowBits(a: nat, b: nat, n: nat, k: nat)
    requires k <= n
    ensures LowBits(Xor(a, b, n), k) == Xor(a, b, k)
  {
    if k > 0 {
      XorLowBits(a / 2, b / 2, n - 1, k - 1);
    }
  }

  /** Shifting an XOR is XOR-ing the shifted operands. */
  lemma {:induction false} XorShiftRight(a: nat, b: nat, n: nat, k: nat)
    requires k <= n
    ensures ShiftRight(Xor(a, b, n), k) == Xor(ShiftRight(a, k), ShiftRight(b, k), n - k)
  {
    if k > 0 {
      XorShiftRight(a / 2, b / 2, n - 1, k - 1);
    }
  }

  /** An `n`-bit XOR reads only the `n` low bits of its operands. */
  lemma {:induction false} XorOfLowBits(a: nat, b: nat, n: nat)
    ensures Xor(LowBits(a, n), LowBits(b, n), n) == Xor(a, b, n)
  {
    if n > 0 {
      LowBitsStep(a, n);
      LowBitsStep(b, n);
      XorOfLowBits(a / 2, b / 2, n - 1);
    }
  }

  lemma {:induction false} OrCommutes(a: nat, b: nat, n: nat)
    ensures Or(a, b, n) == Or(b, a, n)
  {
    if n > 0 {
      OrCommutes(a / 2, b / 2, n - 1);
    }
  }

  /** OR with zero keeps a number that fits. */
  lemma {:induction false} OrZero(y: nat, n: nat)
    requires y < Pow2(n)
    ensures Or(0, y, n) == y
  {
    if n > 0 {
      OrZero(y / 2, n - 1);
    }
  }

  /** OR-ing a number of `k` bits into the bits above them is addition. */
  lemma {:induction false} OrIsAdd(x: nat, y: nat, k: nat, n: nat)
    requires k <= n && x < Pow2(k) && y < Pow2(n - k)
    ensures Or(x, Pow2(k) * y, n) == x + Pow2(k) * y
  {
    if k == 0 {
      OrZero(y, n);
    } else {
      var t := Pow2(k - 1) * y;
      assert Pow2(k) * y == 2 * t;
      assert (2 * t) % 2 == 0 && (2 * t) / 2 == t;
      OrIsAdd(x / 2, y, k - 1, n - 1);
    }
  }
}
