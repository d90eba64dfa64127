/** `PureRandomDesigner`: every land drawn at random (crates/generator/src/designer/pure_random.rs). */
module DesignerPureRandom {
  import opened Unsigned
  import opened Types
  import opened ModelGm
  import opened Random

  /** `10u32.pow(k)`. */
  function Pow10(k: nat): (r: nat)
    ensures r >= 1
  {
    if k == 0 then 1 else 10 * Pow10(k - 1)
  }

  /** `10^k` grows with `k`. */
  lemma {:induction false} Pow10Monotone(i: nat, j: nat)
    requires i <= j
    ensures Pow10(i) <= Pow10(j)
  {
    if i < j {
      Pow10Monotone(i, j - 1);
    }
  }

  /** `10^k` for the exponents the designer draws is at most `10^8`. */
  lemma Pow10Bound(k: nat)
    requires k <= 8
    ensures Pow10(k) <= 100000000
  {
    Pow10Monotone(k, 8);
    assert Pow10(2) == 100;
    assert Pow10(4) == 10000;
    assert Pow10(6) == 1000000;
    assert Pow10(8) == 100000000;
  }

  /** `n` is one of `p, 2p, ..., 9p`. */
  predicate DigitTimes(n: nat, p: nat) {
    n == p || n == 2 * p || n == 3 * p || n == 4 * p || n == 5 * p || n == 6 * p || n == 7 * p || n == 8 * p || n == 9 * p
  }

  /** `a * p` for a digit `a` in 1..9. */
  lemma DigitProduct(a: nat, p: nat)
    requires 1 <= a <= 9
    ensures DigitTimes(a * p, p)
  {
    if a == 1 {} else if a == 2 {} else if a == 3 {} else if a == 4 {} else if a == 5 {}
    else if a == 6 {} else if a == 7 {} else if a == 8 {} else {}
  }

  /** An amount of the form `a * 10^k` with one significant digit `a` in 1..9 and `k <= 8`. */
  ghost predicate OneDigitAmount(n: nat) {
    exists k :: 0 <= k <= 8 && DigitTimes(n, Pow10(k))
  }

  /** Every such amount is at least 1 and at most 9 * 10^8, below `u32::MAX`: the product never overflows. */
  lemma OneDigitAmountBound(n: nat)
    requires OneDigitAmount(n)
    ensures 1 <= n <= 900000000 < U32_MOD
  {
    var k :| 0 <= k <= 8 && DigitTimes(n, Pow10(k));
    Pow10Bound(k);
  }

  /** What `design` may give a land: such an amount, a colour up to `players`, and an empty, crown or city type. */
  ghost predicate DesignedLand(l: Land, players: nat) {
    && OneDigitAmount(l.amount)
    && l.amount < U32_MOD
    && l.color <= players
    && l.landType in {Empty, Crown, City}
  }

  /** One draw of `random_range(1..=9) * 10u32.pow(random_range(0..=8))`; `u32` never overflows. */
  method DrawAmount() returns (amount: nat)
    ensures OneDigitAmount(amount) && amount < U32_MOD
  {
    var a := RandomRange(1, 9);
    var k := RandomRange(0, 8);
    amount := a * Pow10(k);
    DigitProduct(a, Pow10(k));
    OneDigitAmountBound(amount);
  }

  /** `design`: every land gets a random amount, colour and type; nothing else changes. */
  method Design(players: nat, gm: GM)
    requires gm.Valid()
    modifies gm
    ensures gm.Valid() && gm.edges == old(gm.edges) && |gm.lands| == |old(gm.lands)|
    ensures forall id :: 0 <= id < |gm.lands| ==> DesignedLand(gm.lands[id], players)
  {
    var i := 0;
    while i < |gm.lands|
      invariant 0 <= i <= |gm.lands| == |old(gm.lands)|
      invariant gm.Valid() && gm.edges == old(gm.edges)
      invariant forall id :: 0 <= id < i ==> DesignedLand(gm.lands[id], players)
    {
      var amount := DrawAmount();
      var color := RandomRange(0, players);
      var pick := RandomRange(0, 2);
      var t := if pick == 0 then Empty else if pick == 1 then Crown else City;
      gm.lands := gm.lands[i := Land(t, color, amount)];
      i := i + 1;
    }
  }
}
