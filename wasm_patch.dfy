/**
 * Diffing two wasm maps (wasm/src/map_patch.rs): one `Patch` per index at
 * which the lands differ, carrying the land of the other map. `Apply` is
 * what a list of patches means: each patch overwrites the land at its index,
 * in order.
 */
module WasmPatch {
  import opened WasmMap

  /** A single patch: the index of the land and its new value. */
  datatype Patch = Patch(index: nat, land: Tile)

  /** The patches for the first `n` zipped pairs of `xs` and `ys`, in index order. */
  function DiffPrefix(xs: seq<Tile>, ys: seq<Tile>, n: nat): seq<Patch>
    requires n <= |xs| && n <= |ys|
  {
    if n == 0 then [] else DiffPrefix(xs, ys, n - 1) + DiffAt(xs, ys, n - 1)
  }

  /** The patch for pair `i`, if its lands differ. */
  function DiffAt(xs: seq<Tile>, ys: seq<Tile>, i: nat): seq<Patch>
    requires i < |xs| && i < |ys|
  {
    if xs[i] == ys[i] then [] else [Patch(i, ys[i])]
  }

  function Min(a: nat, b: nat): nat { if a <= b then a else b }

  /**
   * `diff`: the two maps must have the same `size` (the source asserts it);
   * the lands are zipped, so a longer land list is cut to the shorter one.
   */
  function Diff(a: Map, b: Map): (r: seq<Patch>)
    requires a.size == b.size
    ensures forall k :: 0 <= k < |r| ==> r[k].index < Min(|a.lands|, |b.lands|)
  {
    var n := Min(|a.lands|, |b.lands|);
    DiffPrefixAscending(a.lands, b.lands, n);
    DiffPrefix(a.lands, b.lands, n)
  }

  /** Strictly ascending indices. */
  predicate Ascending(ps: seq<Patch>) {
    forall k, l :: 0 <= k < l < |ps| ==> ps[k].index < ps[l].index
  }

  /** A patch of the first `n` pairs is one for a differing index below `n`, with the land of `ys`, and each exists. */
  lemma {:induction false} DiffPrefixMembers(xs: seq<Tile>, ys: seq<Tile>, n: nat)
    requires n <= |xs| && n <= |ys|
    ensures forall p :: p in DiffPrefix(xs, ys, n) <==> p.index < n && xs[p.index] != ys[p.index] && p.land == ys[p.index]
  {
    if n > 0 {
      ghost var m: nat := n - 1;
      DiffPrefixMembers(xs, ys, m);
      DiffPrefixSnoc(xs, ys, m, n);
    }
  }

  /** The patches of the first `n` pairs have ascending indices below `n`. */
  lemma {:induction false} DiffPrefixAscending(xs: seq<Tile>, ys: seq<Tile>, n: nat)
    requires n <= |xs| && n <= |ys|
    ensures Ascending(DiffPrefix(xs, ys, n))
    ensures forall k :: 0 <= k < |DiffPrefix(xs, ys, n)| ==> DiffPrefix(xs, ys, n)[k].index < n
  {
    if n > 0 {
      ghost var m: nat := n - 1;
      DiffPrefixAscending(xs, ys, m);
      DiffPrefixSnoc(xs, ys, m, n);
    }
  }

  /** A patch exists for index `i` exactly when the lands at `i` differ, and it carries `b`'s land. */
  lemma DiffSpec(a: Map, b: Map)
    requires Valid(a) && Valid(b) && a.size == b.size
    ensures forall p :: p in Diff(a, b) <==> p.index < a.size && a.lands[p.index] != b.lands[p.index] && p.land == b.lands[p.index]
    ensures forall i :: 0 <= i < a.size && a.lands[i] != b.lands[i] ==> Patch(i, b.lands[i]) in Diff(a, b)
  {
    DiffPrefixMembers(a.lands, b.lands, a.size);
  }

  /** Patches come out in strictly ascending index order. */
  lemma DiffAscending(a: Map, b: Map)
    requires a.size == b.size
    ensures Ascending(Diff(a, b))
  {
    DiffPrefixAscending(a.lands, b.lands, Min(|a.lands|, |b.lands|));
  }

  /** `m.diff(&m)` is empty. */
  lemma {:induction false} DiffSelf(m: Map)
    ensures Diff(m, m) == []
  {
    DiffPrefixSelf(m.lands, |m.lands|);
  }

  lemma {:induction false} DiffPrefixSelf(xs: seq<Tile>, n: nat)
    requires n <= |xs|
    ensures DiffPrefix(xs, xs, n) == []
  {
    if n > 0 {
      DiffPrefixSelf(xs, n - 1);
    }
  }

  /** The meaning of a list of patches: each overwrites the land at its index, first to last; an index off the list is ignored. */
  function Apply(lands: seq<Tile>, ps: seq<Patch>): (r: seq<Tile>)
    ensures |r| == |lands|
  {
    if ps == [] then lands
    else
      var q := Apply(lands, ps[..|ps| - 1]);
      var p := ps[|ps| - 1];
      if p.index < |q| then q[p.index := p.land] else q
  }

  /** One more pair adds at most its own patch. */
  lemma DiffPrefixSnoc(xs: seq<Tile>, ys: seq<Tile>, m: nat, n: nat)
    requires n == m + 1 <= |xs| && n <= |ys|
    ensures DiffPrefix(xs, ys, n) == DiffPrefix(xs, ys, m) + DiffAt(xs, ys, m)
  {
  }

  /** Applying one more patch first applies the others. */
  lemma ApplySnoc(lands: seq<Tile>, init: seq<Patch>, p: Patch)
    ensures var q := Apply(lands, init);
      Apply(lands, init + [p]) == if p.index < |q| then q[p.index := p.land] else q
  {
    assert (init + [p])[..|init|] == init;
  }

  /** Taking one more land from `ys`: overwriting position `m` of the splice at `m` gives the splice at `m + 1`. */
  lemma SpliceStep(xs: seq<Tile>, ys: seq<Tile>, m: nat, n: nat)
    requires n == m + 1 <= |xs| == |ys|
    ensures (ys[..m] + xs[m..])[m := ys[m]] == ys[..n] + xs[n..]
    ensures xs[m] == ys[m] ==> ys[..m] + xs[m..] == ys[..n] + xs[n..]
  {
    assert (ys[..m] + xs[m..])[m] == xs[m];
  }

  /** Applying the patches of the first `n` pairs to `xs` turns its first `n` lands into those of `ys`. */
  lemma {:induction false} ApplyDiffPrefix(xs: seq<Tile>, ys: seq<Tile>, n: nat)
    requires n <= |xs| == |ys|
    ensures Apply(xs, DiffPrefix(xs, ys, n)) == ys[..n] + xs[n..]
  {
    if n == 0 {
      assert xs[0..] == xs;
    } else {
      ghost var m: nat := n - 1;
      ApplyDiffPrefix(xs, ys, m);
      var init := DiffPrefix(xs, ys, m);
      SpliceStep(xs, ys, m, n);
      DiffPrefixSnoc(xs, ys, m, n);
      if xs[m] != ys[m] {
        assert DiffPrefix(xs, ys, n) == init + [Patch(m, ys[m])];
        ApplySnoc(xs, init, Patch(m, ys[m]));
      } else {
        assert DiffPrefix(xs, ys, n) == init + [];
        assert init + [] == init;
      }
    }
  }

  /** Applying `a.diff(&b)` to the lands of `a` yields the lands of `b`. */
  lemma ApplyDiff(a: Map, b: Map)
    requires Valid(a) && Valid(b) && a.size == b.size
    ensures Apply(a.lands, Diff(a, b)) == b.lands
  {
    ApplyDiffPrefix(a.lands, b.lands, a.size);
    assert b.lands[..a.size] == b.lands && a.lands[a.size..] == [];
  }

  /** The documented example: two 2 x 2 square maps that differ at indices 1 and 3. */
  lemma DocExample()
    ensures var here := Map(Square, 2, 2, 4, [Tile(Land, 0, 0), Tile(Land, 0, 0), Tile(Land, 0, 0), Tile(Mountain, 0, 0)]);
      var there := Map(Square, 2, 2, 4, [Tile(Land, 0, 0), Tile(Mountain, 0, 0), Tile(Land, 0, 0), Tile(Land, 0, 0)]);
      var patches := Diff(here, there);
      |patches| == 2 && patches[0].index == 1 && patches[1].index == 3
  {
    var here := Map(Square, 2, 2, 4, [Tile(Land, 0, 0), Tile(Land, 0, 0), Tile(Land, 0, 0), Tile(Mountain, 0, 0)]);
    var there := Map(Square, 2, 2, 4, [Tile(Land, 0, 0), Tile(Mountain, 0, 0), Tile(Land, 0, 0), Tile(Land, 0, 0)]);
    assert DiffPrefix(here.lands, there.lands, 1) == [];
    assert DiffPrefix(here.lands, there.lands, 2) == [Patch(1, Tile(Mountain, 0, 0))];
    assert DiffPrefix(here.lands, there.lands, 3) == [Patch(1, Tile(Mountain, 0, 0))];
  }
}
