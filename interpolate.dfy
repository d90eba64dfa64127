/**
 * The `interpolate!` macro of crates/generator/src/lib.rs, which maps a
 * configuration ratio to a concrete range: `min + ((max - min) * ratio) as T`.
 * The f64 computation is modelled with exact reals.
 */
module Interpolate {
  import opened Unsigned

  /** Rust's `as u32` on an f64: truncation toward zero, saturating at both ends. */
  function SaturatingU32(x: real): (r: nat)
    ensures r < U32_MOD
    ensures 0.0 <= x < U32_MOD as real ==> r == x.Floor
  {
    if x < 0.0 then 0 else if x >= U32_MOD as real then U32_MOD - 1 else x.Floor
  }

  /** `interpolate!(name, min, max, BlockYIndex)` applied to `ratio`. */
  function InterpolateU32(min: nat, max: nat, ratio: real): (r: nat)
    requires min <= max < U32_MOD && 0.0 <= ratio <= 1.0
    ensures min <= r <= max
    ensures ratio == 0.0 ==> r == min
    ensures ratio == 1.0 ==> r == max
  {
    var span := (max - min) as real * ratio;
    assert span <= (max - min) as real;
    min + SaturatingU32(span)
  }

  /** `max_y_index(y_ratio)`: interpolated into [1, 5]. */
  function MaxYIndex(yRatio: real): (r: nat)
    requires 0.0 <= yRatio <= 1.0
    ensures 1 <= r <= 5
  {
    InterpolateU32(1, 5, yRatio)
  }

  /** `plane_size_per_sqrt_player(ratio)`: interpolated into [2, 10]. */
  function PlaneSizePerSqrtPlayer(ratio: real): (r: nat)
    requires 0.0 <= ratio <= 1.0
    ensures 2 <= r <= 10
  {
    InterpolateU32(2, 10, ratio)
  }

  /** `city_density(ratio)`, an f64 in [0, 0.125]. */
  function CityDensity(ratio: real): (r: real)
    requires 0.0 <= ratio <= 1.0
    ensures 0.0 <= r <= 0.125
  {
    0.0 + (0.125 - 0.0) * ratio
  }
}
