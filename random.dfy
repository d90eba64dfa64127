/**
 * The random source threaded through the generator (`rng: &mut impl Rng`).
 * Each draw is a nondeterministic choice constrained only by its range, so
 * every property proved about a caller holds for every outcome of the RNG.
 */
module Random {
  /** `rng.random_range(lo..=hi)`. */
  method RandomRange(lo: int, hi: int) returns (r: int)
    requires lo <= hi
    ensures lo <= r <= hi
  {
    r :| lo <= r <= hi;
  }

  /** `slice.shuffle(rng)`: Fisher-Yates swaps; the result is a permutation of the input. */
  method Shuffle(a: array<nat>)
    modifies a
    ensures multiset(a[..]) == old(multiset(a[..]))
  {
    var i := a.Length;
    while i > 1
      invariant 0 <= i <= a.Length
      invariant multiset(a[..]) == old(multiset(a[..]))
    {
      i := i - 1;
      var j := RandomRange(0, i);
      a[i], a[j] := a[j], a[i];
    }
  }
}
