/**
 * Masking a land for a player who cannot see it (wasm/src/map_view.rs):
 * mountains and cities look like obstacles, everything else like fog, and
 * neither colour nor amount shows through.
 */
module WasmView {
  import opened WasmMap

  /** `mask`: an obstacle for a mountain or a city, fog for any other land; colour and amount cleared. */
  function Mask(t: Tile): (r: Tile)
    ensures r.color == 0 && r.amount == 0
    ensures r.kind == Obstacle <==> t.kind in {Mountain, City}
    ensures r.kind == Fog <==> t.kind !in {Mountain, City}
  {
    match t.kind
    case Mountain | City => Tile(Obstacle, 0, 0)
    case _ => Tile(Fog, 0, 0)
  }

  /** `mask_assign`, on the land held in slot `i` of `lands`: it becomes its own mask, and no other slot changes. */
  method MaskAssign(lands: array<Tile>, i: nat)
    requires i < lands.Length
    modifies lands
    ensures lands[i] == Mask(old(lands[i]))
    ensures forall j :: 0 <= j < lands.Length && j != i ==> lands[j] == old(lands[j])
  {
    lands[i] := Mask(lands[i]);
  }

  /** A masked land shows only what masking shows: masking it again gives fog, since neither an obstacle nor fog is a mountain or a city. */
  lemma MaskTwice(t: Tile)
    ensures Mask(Mask(t)) == Tile(Fog, 0, 0)
  {
  }

  /** Masking depends on the kind alone: two lands of the same kind look the same. */
  lemma MaskHidesOwner(s: Tile, t: Tile)
    requires s.kind == t.kind
    ensures Mask(s) == Mask(t)
  {
  }

  /** The documented example: a city of colour 1 holding 2 is masked to an empty obstacle. */
  lemma DocExample()
    ensures Mask(Tile(City, 1, 2)) == Tile(Obstacle, 0, 0)
  {
  }
}
