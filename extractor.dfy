/** `BasicExtractor`: from planes to the land graph (crates/generator/src/extractor/basic.rs). */
module Extractor {
  import opened Wrappers
  import opened Unsigned
  import opened Vec2
  import opened Types
  import opened Dir
  import opened ModelGm

  /** `plane_to_id`: collected in order, so a plane listed twice maps to its last index. */
  function PlaneIds(pv: seq<Plane>): (m: map<Plane, nat>)
    ensures forall p :: p in m ==> m[p] < |pv|
  {
    if pv == [] then map[]
    else PlaneIds(pv[..|pv| - 1])[pv[|pv| - 1] := |pv| - 1]
  }

  /** Every plane of `pv` has an id, and its id is the last index at which it occurs. */
  lemma {:induction false} PlaneIdsSpec(pv: seq<Plane>)
    ensures forall p :: p in PlaneIds(pv) <==> p in pv
    ensures forall p :: p in PlaneIds(pv) ==> pv[PlaneIds(pv)[p]] == p
    ensures forall p, k :: p in PlaneIds(pv) && PlaneIds(pv)[p] < k < |pv| ==> pv[k] != p
  {
    if pv != [] {
      var init := pv[..|pv| - 1];
      assert pv == init + [pv[|pv| - 1]];
      PlaneIdsSpec(init);
    }
  }

  /** The first `k` planes have `u32` blocks and are tops or square sides, the faces `extract` links. */
  ghost predicate ExtractablePrefix(pv: seq<Plane>, k: nat) {
    k <= |pv| && forall i :: 0 <= i < k ==> ValidBlock(pv[i].block) && SquareDir(pv[i].dir)
  }

  ghost predicate Extractable(pv: seq<Plane>) {
    ExtractablePrefix(pv, |pv|)
  }

  /**
   * The candidate neighbours of a plane, in the order the source chains
   * them. A top touches the four sides and the bottom of the block above,
   * the tops of the four neighbouring columns on the same layer and the
   * four sides of its own block. A side touches the top and bottom of its
   * own block, the top of the block below its neighbour and the bottom of
   * the block above its neighbour. Layer arithmetic wraps as in a release build.
   */
  function Candidates(p: Plane): (r: seq<Plane>)
    requires ValidBlock(p.block) && SquareDir(p.dir)
  {
    match p.dir
    case Top =>
      var higher := NextBlock(p, Square).value;
      var y := p.block.yIndex;
      var r := [Plane(higher, Side(0)), Plane(higher, Side(1)), Plane(higher, Side(2)), Plane(higher, Side(3)),
                Plane(higher, Bottom),
                Plane(Block(WrappingAdd(p.block.pos, SQUARE[0], U32), y), Top),
                Plane(Block(WrappingAdd(p.block.pos, SQUARE[1], U32), y), Top),
                Plane(Block(WrappingAdd(p.block.pos, SQUARE[2], U32), y), Top),
                Plane(Block(WrappingAdd(p.block.pos, SQUARE[3], U32), y), Top),
                Plane(p.block, Side(0)), Plane(p.block, Side(1)), Plane(p.block, Side(2)), Plane(p.block, Side(3))];
      r
    case Side(_) =>
      var next := NextBlock(p, Square).value;
      [Plane(p.block, Top), Plane(p.block, Bottom),
       Plane(Block(next.pos, WrapSub(next.yIndex, 1, U32_MOD)), Top),
       Plane(Block(next.pos, WrapAdd(next.yIndex, 1, U32_MOD)), Bottom)]
  }

  /** No plane is among its own candidates. */
  lemma NotOwnCandidate(p: Plane)
    requires ValidBlock(p.block) && SquareDir(p.dir)
    ensures p !in Candidates(p)
  {
    if p.dir == Top {
      NeighbourDiffers(p.block.pos, 0);
      NeighbourDiffers(p.block.pos, 1);
      NeighbourDiffers(p.block.pos, 2);
      NeighbourDiffers(p.block.pos, 3);
    }
  }

  /** A square step always moves to another column. */
  lemma NeighbourDiffers(pos: Vec2, d: nat)
    requires Fits(pos, U32) && d < 4
    ensures WrappingAdd(pos, SQUARE[d], U32) != pos
  {
  }

  /** The adjacency lists after `from` is linked with the id of every listed candidate that has one. */
  function AddCandidates(edges: seq<seq<nat>>, ids: map<Plane, nat>, from: nat, cs: seq<Plane>): (r: seq<seq<nat>>)
    requires from < |edges| && forall p :: p in ids ==> ids[p] < |edges|
    ensures |r| == |edges|
  {
    if cs == [] then edges
    else
      var e := AddCandidates(edges, ids, from, cs[..|cs| - 1]);
      var c := cs[|cs| - 1];
      if c in ids then AddedEdge(e, from, ids[c]) else e
  }

  /** The candidates of every plane, and no candidates for a plane `extract` would stop on. */
  ghost function CandidateTable(pv: seq<Plane>): (t: seq<seq<Plane>>)
    ensures |t| == |pv|
  {
    seq(|pv|, i requires 0 <= i < |pv| =>
      if ValidBlock(pv[i].block) && SquareDir(pv[i].dir) then Candidates(pv[i]) else [])
  }

  /** The adjacency lists of `n` lands once rows `0..k` of the candidate table have been linked. */
  function LinkedRows(n: nat, ids: map<Plane, nat>, cands: seq<seq<Plane>>, k: nat): (r: seq<seq<nat>>)
    requires k <= |cands| <= n && forall p :: p in ids ==> ids[p] < n
    ensures |r| == n
  {
    if k == 0 then seq(n, _ => [])
    else AddCandidates(LinkedRows(n, ids, cands, k - 1), ids, k - 1, cands[k - 1])
  }

  /** The adjacency lists once the first `k` planes have been processed. */
  ghost function ExtractedEdges(pv: seq<Plane>, k: nat): (r: seq<seq<nat>>)
    requires k <= |pv|
    ensures |r| == |pv|
  {
    LinkedRows(|pv|, PlaneIds(pv), CandidateTable(pv), k)
  }

  /** What `extract` stops on: placement and `dir` exist for square mode only, and a bottom plane is unimplemented. */
  function ExtractError(mode: GMMode): GenError {
    if mode == Square then UnsupportedDirection else UnsupportedMode
  }

  /** The inner `for_each` of `extract`: link `from` with every candidate that has an id. */
  method LinkCandidates(gm: GM, ids: map<Plane, nat>, from: nat, cs: seq<Plane>)
    requires gm.Valid() && from < |gm.edges| && forall p :: p in ids ==> ids[p] < |gm.edges|
    modifies gm
    ensures gm.Valid() && gm.lands == old(gm.lands)
    ensures gm.edges == AddCandidates(old(gm.edges), ids, from, cs)
  {
    ghost var start := gm.edges;
    var n := 0;
    while n < |cs|
      invariant 0 <= n <= |cs|
      invariant gm.Valid() && gm.lands == old(gm.lands)
      invariant gm.edges == AddCandidates(start, ids, from, cs[..n])
    {
      assert cs[..n + 1][..n] == cs[..n];
      if cs[n] in ids {
        gm.AddEdge(from, ids[cs[n]]);
      }
      n := n + 1;
    }
    assert cs[..n] == cs;
  }

  /** One round of the outer loop of `extract`: link plane `from` with its candidates. */
  method LinkPlane(gm: GM, pv: seq<Plane>, ids: map<Plane, nat>, from: nat)
    requires ids == PlaneIds(pv) && ExtractablePrefix(pv, from + 1)
    requires gm.Valid() && gm.edges == ExtractedEdges(pv, from)
    modifies gm
    ensures gm.Valid() && gm.lands == old(gm.lands)
    ensures gm.edges == ExtractedEdges(pv, from + 1)
  {
    var cs := Candidates(pv[from]);
    assert cs == CandidateTable(pv)[from];
    LinkCandidates(gm, ids, from, cs);
  }

  /** The outer loop of `extract` in square mode; it stops at the first plane that is neither a top nor a square side. */
  method LinkPlanes(gm: GM, pv: seq<Plane>) returns (ok: bool)
    requires forall p :: p in pv ==> ValidBlock(p.block)
    requires gm.Valid() && gm.edges == seq(|pv|, _ => [])
    modifies gm
    ensures gm.Valid() && gm.lands == old(gm.lands)
    ensures ok <==> Extractable(pv)
    ensures ok ==> gm.edges == ExtractedEdges(pv, |pv|)
  {
    var ids := PlaneIds(pv);
    var from := 0;
    while from < |pv|
      invariant 0 <= from <= |pv| && ExtractablePrefix(pv, from)
      invariant gm.Valid() && |gm.edges| == |pv| && gm.lands == old(gm.lands)
      invariant gm.edges == ExtractedEdges(pv, from)
    {
      if !SquareDir(pv[from].dir) {
        return false;
      }
      assert pv[from] in pv;
      LinkPlane(gm, pv, ids, from);
      from := from + 1;
    }
    ok := true;
  }

  /**
   * `extract`: a land per plane, and an edge between each plane and every
   * candidate plane that `pv` contains. The bounding placements are not part
   * of this model; they are computed first and exist only in square mode.
   */
  method Extract(mode: GMMode, pv: seq<Plane>) returns (r: Result<GM, GenError>)
    requires forall p :: p in pv ==> ValidBlock(p.block)
    ensures r.Ok? <==> pv == [] || (mode == Square && Extractable(pv))
    ensures r.Err? ==> r.error == ExtractError(mode)
    ensures r.Ok? ==> fresh(r.value) && r.value.Valid()
    ensures r.Ok? ==> r.value.lands == seq(|pv|, _ => DefaultLand)
    ensures r.Ok? ==> r.value.edges == ExtractedEdges(pv, |pv|)
  {
    var gm := new GM(|pv|);
    if mode != Square && pv != [] {
      return Err(UnsupportedMode);
    }
    var ok := LinkPlanes(gm, pv);
    if !ok {
      return Err(UnsupportedDirection);
    }
    r := Ok(gm);
  }

  /** Some candidate in `cs` has id `j`. */
  ghost predicate HitsId(cs: seq<Plane>, ids: map<Plane, nat>, j: nat) {
    exists c :: c in cs && c in ids && ids[c] == j
  }

  /** Processing plane `i` calls `add_edge(i, j)`: some candidate of plane `i` has id `j`. */
  ghost predicate Touches(pv: seq<Plane>, i: nat, j: nat)
    requires Extractable(pv)
  {
    i < |pv| && HitsId(Candidates(pv[i]), PlaneIds(pv), j)
  }

  /** Linking `from` with candidates `cs` adds exactly the pairs {from, id of c} for the candidates that have ids. */
  lemma {:induction false} AddCandidatesRelation(
    edges: seq<seq<nat>>, ids: map<Plane, nat>, from: nat, cs: seq<Plane>, a: nat, b: nat)
    requires from < |edges| && forall p :: p in ids ==> ids[p] < |edges|
    ensures Linked(AddCandidates(edges, ids, from, cs), a, b) <==>
      Linked(edges, a, b) || (a == from && HitsId(cs, ids, b)) || (b == from && HitsId(cs, ids, a))
  {
    if cs != [] {
      var init, c := cs[..|cs| - 1], cs[|cs| - 1];
      assert cs == init + [c];
      AddCandidatesRelation(edges, ids, from, init, a, b);
      if c in ids {
        AddedEdgeRelation(AddCandidates(edges, ids, from, init), from, ids[c], a, b);
      }
    }
  }

  /** After rows `0..k`, `a` and `b` are linked exactly when one of them is a row below `k` holding a candidate with the other's id. */
  lemma {:induction false} LinkedRowsRelation(n: nat, ids: map<Plane, nat>, cands: seq<seq<Plane>>, k: nat, a: nat, b: nat)
    requires k <= |cands| <= n && forall p :: p in ids ==> ids[p] < n
    ensures Linked(LinkedRows(n, ids, cands, k), a, b) <==>
      (a < k && HitsId(cands[a], ids, b)) || (b < k && HitsId(cands[b], ids, a))
  {
    if k > 0 {
      LinkedRowsRelation(n, ids, cands, k - 1, a, b);
      AddCandidatesRelation(LinkedRows(n, ids, cands, k - 1), ids, k - 1, cands[k - 1], a, b);
    }
  }

  /** After the first `k` planes, `a` and `b` are linked exactly when one of them is below `k` and touches the other. */
  lemma ExtractedRelation(pv: seq<Plane>, k: nat, a: nat, b: nat)
    requires Extractable(pv) && k <= |pv|
    ensures Linked(ExtractedEdges(pv, k), a, b) <==> (a < k && Touches(pv, a, b)) || (b < k && Touches(pv, b, a))
  {
    var t := CandidateTable(pv);
    LinkedRowsRelation(|pv|, PlaneIds(pv), t, k, a, b);
    if a < k {
      assert t[a] == Candidates(pv[a]);
    }
    if b < k {
      assert t[b] == Candidates(pv[b]);
    }
  }

  /** No land is its own neighbour: no plane is among its own candidates. */
  lemma NoSelfLoops(pv: seq<Plane>, a: nat)
    requires Extractable(pv)
    ensures !Linked(ExtractedEdges(pv, |pv|), a, a)
  {
    ExtractedRelation(pv, |pv|, a, a);
    PlaneIdsSpec(pv);
    if a < |pv| {
      NotOwnCandidate(pv[a]);
    }
  }

  /**
   * The graph `extract` builds, for distinct planes (as `transform` produces):
   * land `a` and land `b` are neighbours exactly when one plane is a
   * candidate of the other.
   */
  lemma ExtractedGraph(pv: seq<Plane>, a: nat, b: nat)
    requires Extractable(pv) && forall i, j :: 0 <= i < j < |pv| ==> pv[i] != pv[j]
    ensures Linked(ExtractedEdges(pv, |pv|), a, b) <==>
      a < |pv| && b < |pv| && (pv[b] in Candidates(pv[a]) || pv[a] in Candidates(pv[b]))
  {
    ExtractedRelation(pv, |pv|, a, b);
    TouchesDistinct(pv, a, b);
    TouchesDistinct(pv, b, a);
  }

  /** With distinct planes, plane `i` touches land `j` exactly when plane `j` is a candidate of plane `i`. */
  lemma TouchesDistinct(pv: seq<Plane>, i: nat, j: nat)
    requires Extractable(pv) && forall i, j :: 0 <= i < j < |pv| ==> pv[i] != pv[j]
    ensures Touches(pv, i, j) <==> i < |pv| && j < |pv| && pv[j] in Candidates(pv[i])
  {
    PlaneIdsSpec(pv);
    var ids := PlaneIds(pv);
    if Touches(pv, i, j) {
      var c :| c in Candidates(pv[i]) && c in ids && ids[c] == j;
      assert pv[j] == c;
    }
    if i < |pv| && j < |pv| && pv[j] in Candidates(pv[i]) {
      assert pv[j] in pv;
      var m := ids[pv[j]];
      assert pv[m] == pv[j];
      assert m == j;
    }
  }
}
