/** Fixed-width machine integers as bounded subsets of Dafny's unbounded `int`. */
module Ints {
  const U8_MAX: int := 0xFF
  const U32_MAX: int := 0xFFFF_FFFF
  const U64_MAX: int := 0xFFFF_FFFF_FFFF_FFFF
  const I64_MIN: int := -0x8000_0000_0000_0000
  const I64_MAX: int := 0x7FFF_FFFF_FFFF_FFFF
  /** The model fixes a 64-bit target, so `usize` is `u64`. */
  const USIZE_MAX: int := U64_MAX

  type byte = x: int | 0 <= x <= U8_MAX
  type u32 = x: int | 0 <= x <= U32_MAX
  type u64 = x: int | 0 <= x <= U64_MAX
  type i64 = x: int | I64_MIN <= x <= I64_MAX
  type usize = x: int | 0 <= x <= USIZE_MAX

  function Min(a: int, b: int): int { if a <= b then a else b }
  function Max(a: int, b: int): int { if a <= b then b else a }

  // Facts of nonlinear arithmetic that the solver does not find alone.

  lemma MulStep(k: int, m: int)
    ensures (k + 1) * m == k * m + m
  {
  }

  lemma MulGe(d: int, m: int)
    requires d >= 1 && m > 0
    ensures d * m >= m
  {
  }

  lemma MulMono(a: int, b: int, m: nat)
    requires a <= b
    ensures a * m <= b * m
  {
  }

  /** Euclidean division is determined by any quotient-remainder decomposition. */
  lemma DivModUnique(x: int, a: int, b: int, m: int)
    requires m > 0 && 0 <= b < m && x == a * m + b
    ensures x / m == a && x % m == b
  {
    var q, r := x / m, x % m;
    assert x == q * m + r;
    if q > a {
      assert (q - a) * m == b - r;
      MulGe(q - a, m);
    } else if q < a {
      assert (a - q) * m == r - b;
      MulGe(a - q, m);
    }
  }
}
