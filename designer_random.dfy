/** `RandomDesigner`: cities and crowns on distinct random lands (crates/generator/src/designer/random.rs). */
module DesignerRandom {
  import opened Types
  import opened ModelGm
  import opened Seqs
  import opened Interpolate
  import opened Random

  /** `x * s` grows with `x` for a non-negative `s`. */
  lemma ScaleBound(x: real, s: real)
    requires 0.0 <= x <= 0.125 && 0.0 <= s
    ensures 0.0 <= x * s <= 0.125 * s
  {
  }

  /**
   * `get_city_cnt`: the interpolated density times the number of lands,
   * truncated by `as usize`. At most an eighth of the lands become cities.
   */
  function CityCount(ratio: real, size: nat): (r: nat)
    requires 0.0 <= ratio <= 1.0
    ensures 8 * r <= size
    ensures r as real <= CityDensity(ratio) * size as real < r as real + 1.0
    ensures ratio == 0.0 ==> r == 0
  {
    var d := CityDensity(ratio);
    ScaleBound(d, size as real);
    var f := (d * size as real).Floor;
    assert 8.0 * f as real <= size as real;
    f
  }

  /** A land made a city keeps its colour and holds between 40 and 50 troops. */
  ghost predicate MadeCity(before: Land, after: Land) {
    after.landType == City && after.color == before.color && 40 <= after.amount <= 50
  }

  /**
   * The outcome of `draft` on lands `before`: the ids in `cities` became
   * cities, the k-th id in `crowns` became the crown of player k + 1 with one
   * troop, no id was picked twice, and every other land is unchanged.
   */
  ghost predicate Drafted(before: seq<Land>, after: seq<Land>, cities: seq<nat>, crowns: seq<nat>) {
    && |after| == |before|
    && Distinct(cities + crowns)
    && (forall k :: 0 <= k < |cities| ==> cities[k] < |before| && MadeCity(before[cities[k]], after[cities[k]]))
    && (forall k :: 0 <= k < |crowns| ==> crowns[k] < |before| && after[crowns[k]] == Land(Crown, k + 1, 1))
    && (forall id :: 0 <= id < |before| && id !in cities && id !in crowns ==> after[id] == before[id])
  }

  /**
   * `draft`: shuffle the land ids, pop `city_cnt` of them as cities and then
   * one per player as crowns. The ids popped are returned in order; popping
   * more ids than there are lands panics in the source, so that is
   * a precondition here.
   */
  method Draft(c: GMConfig, gm: GM) returns (cities: seq<nat>, crowns: seq<nat>)
    requires ValidConfig(c) && gm.Valid()
    requires CityCount(c.cityDensity, |gm.lands|) + c.playerCount <= |gm.lands|
    modifies gm
    ensures gm.Valid() && gm.edges == old(gm.edges)
    ensures |cities| == CityCount(c.cityDensity, |old(gm.lands)|) && |crowns| == c.playerCount
    ensures Drafted(old(gm.lands), gm.lands, cities, crowns)
  {
    var size := |gm.lands|;
    var cityCnt := CityCount(c.cityDensity, size);
    var remained := new nat[size](i requires 0 <= i => i);
    assert remained[..] == Iota(size);
    Shuffle(remained);
    PermutationOfIota(remained[..], size);
    cities := PopCities(gm, remained, cityCnt);
    crowns := PopCrowns(gm, remained, old(gm.lands), cities, c.playerCount);
  }

  /** The first loop of `draft`: the last `cnt` ids of `remained`, from the back, become cities. */
  method PopCities(gm: GM, remained: array<nat>, cnt: nat) returns (cities: seq<nat>)
    requires gm.Valid() && remained.Length == |gm.lands| && cnt <= remained.Length
    requires Distinct(remained[..]) && forall i :: 0 <= i < remained.Length ==> remained[i] < remained.Length
    modifies gm
    ensures gm.Valid() && gm.edges == old(gm.edges) && |gm.lands| == |old(gm.lands)|
    ensures |cities| == cnt && forall k :: 0 <= k < cnt ==> cities[k] == remained[remained.Length - 1 - k]
    ensures Drafted(old(gm.lands), gm.lands, cities, [])
  {
    var size := remained.Length;
    cities := [];
    while |cities| < cnt
      invariant |cities| <= cnt && gm.Valid() && gm.edges == old(gm.edges) && |gm.lands| == size
      invariant forall k :: 0 <= k < |cities| ==> cities[k] == remained[size - 1 - k]
      invariant Drafted(old(gm.lands), gm.lands, cities, [])
    {
      var id := remained[size - 1 - |cities|];
      assert id !in cities by {
        forall k | 0 <= k < |cities| ensures cities[k] != id {
          assert cities[k] == remained[size - 1 - k];
        }
      }
      var amount := RandomRange(40, 50);
      gm.lands := gm.lands[id := Land(City, gm.lands[id].color, amount)];
      cities := cities + [id];
      assert cities + [] == cities;
    }
  }

  /** The second loop of `draft`: the next `players` ids become crowns coloured 1, 2, ... in turn. */
  method PopCrowns(gm: GM, remained: array<nat>, ghost before: seq<Land>, cities: seq<nat>, players: nat)
    returns (crowns: seq<nat>)
    requires gm.Valid() && remained.Length == |gm.lands| && |cities| + players <= remained.Length
    requires Distinct(remained[..]) && forall i :: 0 <= i < remained.Length ==> remained[i] < remained.Length
    requires forall k :: 0 <= k < |cities| ==> cities[k] == remained[remained.Length - 1 - k]
    requires Drafted(before, gm.lands, cities, [])
    modifies gm
    ensures gm.Valid() && gm.edges == old(gm.edges)
    ensures |crowns| == players && Drafted(before, gm.lands, cities, crowns)
  {
    var size := remained.Length;
    var base := size - |cities|;
    crowns := [];
    var color := 1;
    while color <= players
      invariant 1 <= color <= players + 1 && |crowns| == color - 1
      invariant gm.Valid() && gm.edges == old(gm.edges) && |gm.lands| == size
      invariant forall k :: 0 <= k < |crowns| ==> crowns[k] == remained[base - 1 - k]
      invariant Drafted(before, gm.lands, cities, crowns)
    {
      var id := remained[base - color];
      assert id !in cities + crowns by {
        forall k | 0 <= k < |cities| ensures cities[k] != id {
          assert cities[k] == remained[size - 1 - k];
        }
        forall k | 0 <= k < |crowns| ensures crowns[k] != id {
          assert crowns[k] == remained[base - 1 - k];
        }
      }
      DistinctConcat(cities + crowns, [id]);
      assert cities + (crowns + [id]) == (cities + crowns) + [id];
      gm.lands := gm.lands[id := Land(Crown, color, 1)];
      crowns := crowns + [id];
      color := color + 1;
    }
  }

  /**
   * On a map of default lands, `draft` leaves exactly `cities` as the cities
   * and exactly `crowns` as the crowns; the two never share a land.
   */
  lemma DraftFromDefault(before: seq<Land>, after: seq<Land>, cities: seq<nat>, crowns: seq<nat>)
    requires Drafted(before, after, cities, crowns)
    requires forall id :: 0 <= id < |before| ==> before[id] == DefaultLand
    ensures forall id :: 0 <= id < |after| ==> (after[id].landType == City <==> id in cities)
    ensures forall id :: 0 <= id < |after| ==> (after[id].landType == Crown <==> id in crowns)
    ensures forall id :: id in cities ==> id !in crowns
  {
  }

  /** Every player owns exactly one crown, and its colour is the player's. */
  lemma CrownPerPlayer(before: seq<Land>, after: seq<Land>, cities: seq<nat>, crowns: seq<nat>, color: nat)
    requires Drafted(before, after, cities, crowns) && 1 <= color <= |crowns|
    ensures after[crowns[color - 1]] == Land(Crown, color, 1)
    ensures forall k :: 0 <= k < |crowns| && after[crowns[k]].color == color ==> k == color - 1
  {
  }
}
