/**
 * Fixed-width unsigned arithmetic of the driver.
 *
 * Every quantity of the bridge driver is a C `unsigned int` (32 bits), a
 * `u16`, a `u8` or a `u64`.  C unsigned arithmetic wraps modulo 2^32; that
 * wrap is written out here once, and each formula of the driver is built from
 * these operations in the same order as the C expression.  The module also
 * holds the driver's error convention (0 or a negative errno).
 */
module U32 {

  const TWO_8: int := 0x100
  const TWO_16: int := 0x1_0000
  const TWO_31: int := 0x8000_0000
  const TWO_32: int := 0x1_0000_0000
  const TWO_64: int := 0x1_0000_0000_0000_0000

  /** The Linux error number returned, negated, by the driver on bad input. */
  const EINVAL: int := 22

  /** A value, or the negative error number the driver returns instead. */
  datatype Result<T> = Ok(value: T) | Err(errno: int)

  /** A table entry, or NULL. */
  datatype Option<T> = None | Some(value: T)

  type u8 = x: int | 0 <= x < 0x100
  type u16 = x: int | 0 <= x < 0x1_0000
  type u32 = x: int | 0 <= x < 0x1_0000_0000
  type u64 = x: int | 0 <= x < 0x1_0000_0000_0000_0000

  /** Conversion of any integer to `unsigned int` (reduction modulo 2^32). */
  function Wrap(x: int): u32 {
    x % TWO_32
  }

  function Add(a: u32, b: u32): u32 {
    Wrap(a + b)
  }

  function Sub(a: u32, b: u32): u32 {
    Wrap(a - b)
  }

  function Mul(a: u32, b: u32): u32 {
    Wrap(a * b)
  }

  function Div(a: u32, b: u32): u32
    requires b != 0
  {
    DivIsBelow(a, b);
    a / b
  }

  /** `2^k`, the factor of a shift by `k`. */
  function Pow2(k: nat): (r: nat)
    ensures r >= 1
  {
    if k == 0 then 1 else 2 * Pow2(k - 1)
  }

  /** Logical right shift `a >> k`. */
  function Shr(a: u32, k: nat): u32 {
    DivIsBelow(a, Pow2(k));
    a / Pow2(k)
  }

  /** The kernel macro DIV_ROUND_UP(n, d) = (n + d - 1) / d, on unsigned int. */
  function DivRoundUp(n: u32, d: u32): u32
    requires d != 0
  {
    Div(Wrap(n + d - 1), d)
  }

  /** The kernel macro DIV_ROUND_CLOSEST(x, d) for unsigned operands: (x + d / 2) / d. */
  function DivRoundClosest(x: u32, d: u32): u32
    requires d != 0
  {
    Div(Wrap(x + d / 2), d)
  }

  /** `(int) x > 0` for an unsigned value `x` converted to a 32-bit two's-complement int. */
  predicate PositiveAsInt(x: u32) {
    0 < x < TWO_31
  }

  // ---------------------------------------------------------------------
  // Arithmetic facts used by the proofs of the other modules.
  // ---------------------------------------------------------------------

  /** The three operations are exact when the true result fits 32 bits. */
  lemma AddExact(a: u32, b: u32)
    requires a + b < TWO_32
    ensures Add(a, b) == a + b
  {
  }

  lemma SubExact(a: u32, b: u32)
    requires b <= a
    ensures Sub(a, b) == a - b
  {
  }

  /** Adding back what was subtracted undoes the wrap of the subtraction. */
  lemma SubAddCancel(a: u32, b: u32)
    ensures Add(b, Sub(a, b)) == a
    ensures a < b <==> Sub(a, b) >= TWO_32 - b
  {
    if a >= b {
      assert Sub(a, b) == a - b;
    } else {
      assert Sub(a, b) == a - b + TWO_32;
    }
  }

  lemma MulExact(a: u32, b: u32)
    requires a * b < TWO_32
    ensures Mul(a, b) == a * b
  {
  }

  lemma DivIsBelow(a: nat, b: nat)
    requires b != 0
    ensures 0 <= a / b <= a
  {
    DivBounds(a, b);
    MulMono(1, b, a / b);
  }

  /** Euclidean division written as the two inequalities it satisfies. */
  lemma DivBounds(a: nat, b: nat)
    requires b > 0
    ensures (a / b) * b <= a < (a / b) * b + b
  {
  }

  lemma MulMono(a: int, b: int, c: nat)
    requires a <= b
    ensures a * c <= b * c
  {
  }

  lemma MulStrict(a: int, b: int, c: int)
    requires c > 0
    requires a * c < b * c
    ensures a < b
  {
    if a >= b {
      MulMono(b, a, c);
    }
  }

  /** With no wrap in the numerator, DIV_ROUND_UP(n, d) is the ceiling of n / d:
      the least multiplier whose product with d reaches n. */
  lemma DivRoundUpIsCeil(n: u32, d: u32)
    requires d != 0
    requires n + d - 1 < TWO_32
    ensures DivRoundUp(n, d) * d >= n
    ensures DivRoundUp(n, d) * d < n + d
    ensures n > 0 ==> DivRoundUp(n, d) >= 1
  {
    var m := n + d - 1;
    assert Wrap(m) == m;
    DivBounds(m, d);
    var q := m / d;
    assert DivRoundUp(n, d) == q;
  }

  /** Monotonicity of division by a positive constant divisor. */
  lemma DivMono(a: nat, b: nat, d: nat)
    requires d > 0
    requires a <= b
    ensures a / d <= b / d
  {
    DivBounds(a, d);
    DivBounds(b, d);
    if a / d > b / d {
      MulMono(b / d + 1, a / d, d);
      assert false;
    }
  }

  /** A larger divisor gives a smaller quotient. */
  lemma DivAnti(a: nat, d1: nat, d2: nat)
    requires 0 < d1 <= d2
    ensures a / d2 <= a / d1
  {
    DivBounds(a, d1);
    DivBounds(a, d2);
    if a / d2 > a / d1 {
      MulMono(a / d1 + 1, a / d2, d1);
      MulMono(d1, d2, a / d2);
      assert false;
    }
  }
}
