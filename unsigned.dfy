/**
 * Fixed-width unsigned integers and their wrapping addition, as Rust's
 * `wrapping_add` and SIMD lane addition compute them.
 */
module Unsigned {
  /** The unsigned widths for which the model crate implements `Vec2::wrapping_add`. */
  datatype Width = U8 | U16 | U32 | U64 | U128

  /** 2^bits for each width. */
  function Modulus(w: Width): (m: nat)
    ensures m >= 0x100
  {
    match w
    case U8 => 0x100
    case U16 => 0x1_0000
    case U32 => 0x1_0000_0000
    case U64 => 0x1_0000_0000_0000_0000
    case U128 => 0x1_0000_0000_0000_0000_0000_0000_0000_0000
  }

  const U32_MOD: nat := 0x1_0000_0000

  /** `usize` of the wasm32 target the wasm crate is built for. */
  const USIZE_MOD: nat := 0x1_0000_0000

  predicate InRange(x: int, m: nat) { 0 <= x < m }

  /** Addition modulo m of two values of an m-valued unsigned type. */
  function WrapAdd(a: int, b: int, m: nat): (r: int)
    requires m > 0 && InRange(a, m) && InRange(b, m)
    ensures InRange(r, m)
    ensures a + b < m ==> r == a + b
  {
    if a + b < m then a + b else a + b - m
  }

  /** WrapAdd is addition modulo m. */
  lemma WrapAddIsModular(a: int, b: int, m: nat)
    requires m > 0 && InRange(a, m) && InRange(b, m)
    ensures WrapAdd(a, b, m) == (a + b) % m
  {
    if a + b < m {
      ModOfShift(a + b, m, 0);
    } else {
      ModOfShift(a + b, m, 1);
    }
  }

  /** `x % m` is `x - c * m` for the one `c` that brings `x` into `0..m`. */
  lemma ModOfShift(x: int, m: nat, c: int)
    requires m > 0 && 0 <= x - c * m < m
    ensures x % m == x - c * m
  {
    var k := x / m - c;
    assert k * m == x - c * m - x % m;
    MultipleBelowWidth(k, m);
  }

  /** The only multiple of `width` strictly between `-width` and `width` is 0. */
  lemma MultipleBelowWidth(k: int, width: nat)
    requires width > 0 && -(width as int) < k * width < width
    ensures k == 0
  {
    assert k * width == width + (k - 1) * width;
    assert k * width == -(width as int) - (-k - 1) * width;
  }

  /** Subtraction modulo m (Rust's `wrapping_sub`, and `-` in a release build). */
  function WrapSub(a: int, b: int, m: nat): (r: int)
    requires m > 0 && InRange(a, m) && InRange(b, m)
    ensures InRange(r, m)
    ensures WrapAdd(r, b, m) == a
  {
    if a >= b then a - b else a - b + m
  }

  /** WrapSub is subtraction modulo m. */
  lemma WrapSubIsModular(a: int, b: int, m: nat)
    requires m > 0 && InRange(a, m) && InRange(b, m)
    ensures WrapSub(a, b, m) == (a - b) % m
  {
    if a >= b {
      ModOfShift(a - b, m, 0);
    } else {
      ModOfShift(a - b, m, -1);
    }
  }

  lemma WrapAddCommutative(a: int, b: int, m: nat)
    requires m > 0 && InRange(a, m) && InRange(b, m)
    ensures WrapAdd(a, b, m) == WrapAdd(b, a, m)
  {
  }

  lemma WrapAddAssociative(a: int, b: int, c: int, m: nat)
    requires m > 0 && InRange(a, m) && InRange(b, m) && InRange(c, m)
    ensures WrapAdd(WrapAdd(a, b, m), c, m) == WrapAdd(a, WrapAdd(b, c, m), m)
  {
  }
}
