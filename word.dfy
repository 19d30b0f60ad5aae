/**
 * Rust's `i32`: the range of the type, the wrap-around of `+` and `*` in a
 * release build, and `&`/`|` on the 32-bit two's-complement pattern.
 */
module Word {

  const I32_MIN: int := -0x8000_0000
  const I32_MAX: int := 0x7fff_ffff
  const MODULUS: int := 0x1_0000_0000
  const WIDTH: nat := 32

  predicate InI32(x: int) {
    I32_MIN <= x <= I32_MAX
  }

  type Int32 = x: int | -0x8000_0000 <= x <= 0x7fff_ffff

  /** The i32 that a release build keeps of the mathematical value `x`. */
  function Wrap(x: int): (r: Int32)
    ensures InI32(x) ==> r == x
    ensures (x - r) % MODULUS == 0
  {
    (x - I32_MIN) % MODULUS + I32_MIN
  }

  function Pow2(n: nat): (p: nat)
    ensures p >= 1
  {
    if n == 0 then 1 else 2 * Pow2(n - 1)
  }

  /** The two's-complement pattern of `x`, read as an unsigned number. */
  function Unsigned(x: Int32): (u: nat)
    ensures u < MODULUS
  {
    if x < 0 then x + MODULUS else x
  }

  /** The i32 that has the 32-bit pattern `u`. */
  function Signed(u: nat): Int32
    requires u < MODULUS
  {
    if u <= I32_MAX then u else u - MODULUS
  }

  /** The low `n` bits of `x & y`, computed bit by bit from the lowest. */
  function AndBits(x: nat, y: nat, n: nat): (r: nat)
    ensures r < Pow2(n)
  {
    if n == 0 then 0
    else (if x % 2 == 1 && y % 2 == 1 then 1 else 0) + 2 * AndBits(x / 2, y / 2, n - 1)
  }

  /** The low `n` bits of `x | y`, computed bit by bit from the lowest. */
  function OrBits(x: nat, y: nat, n: nat): (r: nat)
    ensures r < Pow2(n)
  {
    if n == 0 then 0
    else (if x % 2 == 1 || y % 2 == 1 then 1 else 0) + 2 * OrBits(x / 2, y / 2, n - 1)
  }

  lemma {:induction false} Pow2Add(a: nat, b: nat)
    ensures Pow2(a + b) == Pow2(a) * Pow2(b)
  {
    if a > 0 {
      Pow2Add(a - 1, b);
    }
  }

  lemma Pow2Width()
    ensures Pow2(WIDTH) == MODULUS && Pow2(WIDTH - 1) == I32_MAX + 1
  {
    assert Pow2(2) == 4;
    Pow2Add(2, 2);
    Pow2Add(4, 4);
    Pow2Add(8, 8);
    Pow2Add(16, 15);
    Pow2Add(31, 1);
  }

  /** Rust's `x & y` on i32. */
  function BitAnd(x: Int32, y: Int32): Int32 {
    Pow2Width();
    Signed(AndBits(Unsigned(x), Unsigned(y), WIDTH))
  }

  /** Rust's `x | y` on i32. */
  function BitOr(x: Int32, y: Int32): Int32 {
    Pow2Width();
    Signed(OrBits(Unsigned(x), Unsigned(y), WIDTH))
  }

  /** Bit n-1 of `x & y` is set exactly when it is set in both operands. */
  lemma {:induction false} AndBitsTop(x: nat, y: nat, n: nat)
    requires 1 <= n && x < Pow2(n) && y < Pow2(n)
    ensures AndBits(x, y, n) >= Pow2(n - 1) <==> x >= Pow2(n - 1) && y >= Pow2(n - 1)
  {
    if n > 1 {
      AndBitsTop(x / 2, y / 2, n - 1);
    }
  }

  /** Bit n-1 of `x | y` is set exactly when it is set in either operand. */
  lemma {:induction false} OrBitsTop(x: nat, y: nat, n: nat)
    requires 1 <= n && x < Pow2(n) && y < Pow2(n)
    ensures OrBits(x, y, n) >= Pow2(n - 1) <==> x >= Pow2(n - 1) || y >= Pow2(n - 1)
  {
    if n > 1 {
      OrBitsTop(x / 2, y / 2, n - 1);
    }
  }

  /** Masking never sets a bit: `x & y` is at most `x`; `x | y` is at least `x`. */
  lemma {:induction false} BitsMonotone(x: nat, y: nat, n: nat)
    requires x < Pow2(n)
    ensures AndBits(x, y, n) <= x <= OrBits(x, y, n)
  {
    if n > 0 {
      BitsMonotone(x / 2, y / 2, n - 1);
    }
  }

  /** An all-ones mask keeps `x` under `&`; a zero mask keeps it under `|`. */
  lemma {:induction false} BitsIdentity(x: nat, n: nat)
    requires x < Pow2(n)
    ensures AndBits(x, Pow2(n) - 1, n) == x
    ensures OrBits(x, 0, n) == x
  {
    if n > 0 {
      BitsIdentity(x / 2, n - 1);
    }
  }

  /** The result of `&` is negative exactly when both operands are. */
  lemma BitAndSign(x: Int32, y: Int32)
    ensures BitAnd(x, y) < 0 <==> x < 0 && y < 0
  {
    Pow2Width();
    AndBitsTop(Unsigned(x), Unsigned(y), WIDTH);
  }

  /** The result of `|` is negative exactly when either operand is. */
  lemma BitOrSign(x: Int32, y: Int32)
    ensures BitOr(x, y) < 0 <==> x < 0 || y < 0
  {
    Pow2Width();
    OrBitsTop(Unsigned(x), Unsigned(y), WIDTH);
  }

  /** On non-negative operands `x & y` lies in [0, min(x, y)] and `x | y` is at least max(x, y). */
  lemma BitBounds(x: Int32, y: Int32)
    requires 0 <= x && 0 <= y
    ensures 0 <= BitAnd(x, y) <= x && BitAnd(x, y) <= y
    ensures x <= BitOr(x, y) && y <= BitOr(x, y)
  {
    Pow2Width();
    BitAndSign(x, y);
    BitOrSign(x, y);
    BitsMonotone(x, y, WIDTH);
    BitsMonotone(y, x, WIDTH);
    BitsSymmetric(x, y, WIDTH);
  }

  lemma {:induction false} BitsSymmetric(x: nat, y: nat, n: nat)
    ensures AndBits(x, y, n) == AndBits(y, x, n)
    ensures OrBits(x, y, n) == OrBits(y, x, n)
  {
    if n > 0 {
      BitsSymmetric(x / 2, y / 2, n - 1);
    }
  }

  /** -1 (all ones) is the identity of `&`, and 0 that of `|`. */
  lemma BitIdentities(x: Int32)
    ensures BitAnd(x, -1) == x && BitAnd(-1, x) == x
    ensures BitOr(x, 0) == x && BitOr(0, x) == x
  {
    Pow2Width();
    BitsIdentity(Unsigned(x), WIDTH);
    BitsSymmetric(Unsigned(x), Unsigned(-1), WIDTH);
    BitsSymmetric(Unsigned(x), 0, WIDTH);
  }

  /** Bit i of `x`, counting from the least significant. */
  function Bit(x: nat, i: nat): nat {
    if i == 0 then x % 2 else Bit(x / 2, i - 1)
  }

  /** Bit i of `AndBits(x, y, n)`, for i < n, is set exactly when bit i of both operands is. */
  lemma {:induction false} AndBitsByBit(x: nat, y: nat, n: nat, i: nat)
    requires i < n
    ensures Bit(AndBits(x, y, n), i) == if Bit(x, i) == 1 && Bit(y, i) == 1 then 1 else 0
  {
    var low := if x % 2 == 1 && y % 2 == 1 then 1 else 0;
    var rest := AndBits(x / 2, y / 2, n - 1);
    assert AndBits(x, y, n) == low + 2 * rest;
    if i > 0 {
      assert (low + 2 * rest) / 2 == rest;
      AndBitsByBit(x / 2, y / 2, n - 1, i - 1);
    }
  }

  /** Bit i of `OrBits(x, y, n)`, for i < n, is set exactly when bit i of either operand is. */
  lemma {:induction false} OrBitsByBit(x: nat, y: nat, n: nat, i: nat)
    requires i < n
    ensures Bit(OrBits(x, y, n), i) == if Bit(x, i) == 1 || Bit(y, i) == 1 then 1 else 0
  {
    var low := if x % 2 == 1 || y % 2 == 1 then 1 else 0;
    var rest := OrBits(x / 2, y / 2, n - 1);
    assert OrBits(x, y, n) == low + 2 * rest;
    if i > 0 {
      assert (low + 2 * rest) / 2 == rest;
      OrBitsByBit(x / 2, y / 2, n - 1, i - 1);
    }
  }

  /**
   * `&` and `|` act on the two's-complement patterns bit by bit: each of the
   * 32 bits of the result's pattern is the and (or) of the operands' bits.
   */
  lemma BitwiseByBit(x: Int32, y: Int32, i: nat)
    requires i < WIDTH
    ensures Bit(Unsigned(BitAnd(x, y)), i) == if Bit(Unsigned(x), i) == 1 && Bit(Unsigned(y), i) == 1 then 1 else 0
    ensures Bit(Unsigned(BitOr(x, y)), i) == if Bit(Unsigned(x), i) == 1 || Bit(Unsigned(y), i) == 1 then 1 else 0
  {
    Pow2Width();
    AndBitsByBit(Unsigned(x), Unsigned(y), WIDTH, i);
    OrBitsByBit(Unsigned(x), Unsigned(y), WIDTH, i);
  }
}
