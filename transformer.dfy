/** `BasicTransformer`: from blocks to visible planes (crates/generator/src/transformer/basic.rs). */
module Transformer {
  import opened Wrappers
  import opened Unsigned
  import opened Vec2
  import opened Types
  import opened Dir
  import opened Seqs
  import Builder

  /** The faces tried for every block, in order: `Side(0..sides)` and then `Top`. */
  function CandidateDirs(mode: GMMode): (r: seq<PlaneDir>)
    ensures |r| == Sides(mode) + 1 && r[|r| - 1] == Top
    ensures forall k :: 0 <= k < |r| - 1 ==> r[k] == Side(k)
  {
    seq(Sides(mode), d requires 0 <= d => Side(d)) + [Top]
  }

  /**
   * The filter of `transform`: a face is kept unless the block it faces is
   * itself a block ("duplicated plane"), or it is a side whose neighbour lies
   * outside the plane or whose block sits on layer 1 ("useless plane").
   */
  predicate Keep(blocks: seq<Block>, width: nat, height: nat, plane: Plane, next: Block) {
    next !in blocks &&
    !(plane.dir.Side? &&
      (!(0 < next.pos.x <= width && 0 < next.pos.y <= height) || plane.block.yIndex == 1))
  }

  /** The kept faces of block `b` among `dirs`, in order, with square-mode stepping. */
  function Exposed(blocks: seq<Block>, width: nat, height: nat, b: Block, dirs: seq<PlaneDir>): seq<Plane>
    requires ValidBlock(b) && forall k :: 0 <= k < |dirs| ==> SquareDir(dirs[k])
  {
    if dirs == [] then []
    else
      var dir := dirs[|dirs| - 1];
      assert SquareDir(dir);
      var plane := Plane(b, dir);
      Exposed(blocks, width, height, b, dirs[..|dirs| - 1]) +
      (if Keep(blocks, width, height, plane, NextBlock(plane, Square).value) then [plane] else [])
  }

  /** The planes of the first `k` blocks, block by block. */
  function Planes(blocks: seq<Block>, width: nat, height: nat, k: nat): seq<Plane>
    requires k <= |blocks| && forall b :: b in blocks ==> ValidBlock(b)
  {
    if k == 0 then []
    else Planes(blocks, width, height, k - 1) + Exposed(blocks, width, height, blocks[k - 1], CandidateDirs(Square))
  }

  /** The filtered faces of one block, as `transform` computes them inside its loop. */
  method ExposedFaces(mode: GMMode, blocks: seq<Block>, width: nat, height: nat, block: Block)
    returns (r: Result<seq<Plane>, GenError>)
    requires ValidBlock(block)
    ensures r.Ok? <==> mode == Square
    ensures r.Ok? ==> r.value == Exposed(blocks, width, height, block, CandidateDirs(Square))
    ensures r.Err? ==> r.error == UnsupportedMode
  {
    var dirs := CandidateDirs(mode);
    var exposed: seq<Plane> := [];
    var n := 0;
    while n < |dirs|
      invariant 0 <= n <= |dirs|
      invariant mode == Square ==> exposed == Exposed(blocks, width, height, block, dirs[..n])
      invariant mode != Square ==> n == 0
    {
      var plane := Plane(block, dirs[n]);
      var next := NextBlock(plane, mode);
      if next.Err? {
        r := Err(next.error);
        return;
      }
      if Keep(blocks, width, height, plane, next.value) {
        exposed := exposed + [plane];
      }
      assert dirs[..n + 1][..n] == dirs[..n];
      n := n + 1;
    }
    assert dirs[..n] == dirs;
    r := Ok(exposed);
  }

  /**
   * `transform`: for every block, every candidate face that survives the
   * filter, in block order. Only square mode has a direction table; any other
   * mode stops at the first block.
   */
  method Transform(mode: GMMode, bv: Builder.BV) returns (r: Result<seq<Plane>, GenError>)
    requires forall b :: b in bv.blocks ==> ValidBlock(b)
    ensures r.Ok? <==> mode == Square || bv.blocks == []
    ensures r.Ok? ==> r.value == Planes(bv.blocks, bv.width, bv.height, |bv.blocks|)
    ensures r.Err? ==> r.error == UnsupportedMode
  {
    var blocks, width, height := bv.blocks, bv.width, bv.height;
    var pv: seq<Plane> := [];
    var k := 0;
    while k < |blocks|
      invariant 0 <= k <= |blocks|
      invariant pv == Planes(blocks, width, height, k)
      invariant mode != Square ==> k == 0
    {
      var exposed := ExposedFaces(mode, blocks, width, height, blocks[k]);
      if exposed.Err? {
        r := Err(exposed.error);
        return;
      }
      pv := pv + exposed.value;
      k := k + 1;
    }
    r := Ok(pv);
  }

  /** A plane `transform` keeps: a square-mode face of a valid block that passes the filter. */
  ghost predicate Visible(blocks: seq<Block>, width: nat, height: nat, p: Plane) {
    ValidBlock(p.block) && SquareDir(p.dir) && Keep(blocks, width, height, p, NextBlock(p, Square).value)
  }

  /** The square-mode candidates are exactly the four sides and the top, each once. */
  lemma SquareCandidates()
    ensures forall dir :: dir in CandidateDirs(Square) <==> SquareDir(dir)
    ensures Distinct(CandidateDirs(Square))
  {
    var dirs := CandidateDirs(Square);
    assert dirs == [Side(0), Side(1), Side(2), Side(3), Top];
  }

  /** The faces of `b` kept among `dirs` are exactly those that pass the filter; none repeats. */
  lemma {:induction false} ExposedSpec(blocks: seq<Block>, width: nat, height: nat, b: Block, dirs: seq<PlaneDir>)
    requires ValidBlock(b) && forall k :: 0 <= k < |dirs| ==> SquareDir(dirs[k])
    ensures forall p :: p in Exposed(blocks, width, height, b, dirs) <==>
      p.block == b && p.dir in dirs && Visible(blocks, width, height, p)
    ensures Distinct(dirs) ==> Distinct(Exposed(blocks, width, height, b, dirs))
  {
    if dirs != [] {
      var init, dir := dirs[..|dirs| - 1], dirs[|dirs| - 1];
      assert dirs == init + [dir];
      ExposedSpec(blocks, width, height, b, init);
      if Distinct(dirs) {
        assert dir !in init;
        var last := if Keep(blocks, width, height, Plane(b, dir), NextBlock(Plane(b, dir), Square).value) then [Plane(b, dir)] else [];
        DistinctConcat(Exposed(blocks, width, height, b, init), last);
      }
    }
  }

  /**
   * The planes of the first `k` blocks are exactly the visible faces of
   * those blocks, and when the blocks are distinct no plane repeats.
   */
  lemma {:induction false} PlanesSpec(blocks: seq<Block>, width: nat, height: nat, k: nat)
    requires k <= |blocks| && forall b :: b in blocks ==> ValidBlock(b)
    ensures forall p :: p in Planes(blocks, width, height, k) <==>
      p.block in blocks[..k] && Visible(blocks, width, height, p)
    ensures Distinct(blocks) ==> Distinct(Planes(blocks, width, height, k))
  {
    if k > 0 {
      ghost var j: nat := k - 1;
      PlanesSpec(blocks, width, height, j);
      var b := blocks[j];
      SquareCandidates();
      var prev, ex := Planes(blocks, width, height, j), Exposed(blocks, width, height, b, CandidateDirs(Square));
      assert Planes(blocks, width, height, k) == prev + ex;
      ExposedSpec(blocks, width, height, b, CandidateDirs(Square));
      PrefixSnoc(blocks, j, k);
      if Distinct(blocks) {
        DistinctPrefixLast(blocks, j);
        DistinctConcat(prev, ex);
      }
    }
  }

  /**
   * What `transform` promises about its output: every plane is a face of an
   * input block, never a bottom, never faces another block, and a side face
   * is never on layer 1 nor looks out of the plane; every such face is
   * present; and distinct blocks give distinct planes.
   */
  lemma TransformSpec(blocks: seq<Block>, width: nat, height: nat)
    requires forall b :: b in blocks ==> ValidBlock(b)
    ensures var pv := Planes(blocks, width, height, |blocks|);
      && (forall p :: p in pv <==> p.block in blocks && Visible(blocks, width, height, p))
      && (forall p :: p in pv ==> p.dir != Bottom && NextBlock(p, Square).value !in blocks)
      && (forall p :: p in pv && p.dir.Side? ==> p.block.yIndex != 1)
      && (Distinct(blocks) ==> Distinct(pv))
  {
    PlanesSpec(blocks, width, height, |blocks|);
    assert blocks[..|blocks|] == blocks;
  }

  /** A block on layer 1 shows none of its sides. */
  lemma {:induction false} SidesDropped(blocks: seq<Block>, width: nat, height: nat, b: Block, dirs: seq<PlaneDir>)
    requires ValidBlock(b) && b.yIndex == 1
    requires forall k :: 0 <= k < |dirs| ==> dirs[k].Side? && SquareDir(dirs[k])
    ensures Exposed(blocks, width, height, b, dirs) == []
  {
    if dirs != [] {
      SidesDropped(blocks, width, height, b, dirs[..|dirs| - 1]);
    }
  }

  /** On a flat plane a block shows its top face and nothing else. */
  lemma FlatExposed(blocks: seq<Block>, width: nat, height: nat, b: Block)
    requires forall c :: c in blocks ==> c.yIndex == 1
    requires ValidBlock(b) && b.yIndex == 1
    ensures Exposed(blocks, width, height, b, CandidateDirs(Square)) == [Plane(b, Top)]
  {
    var dirs := CandidateDirs(Square);
    SidesDropped(blocks, width, height, b, dirs[..|dirs| - 1]);
    assert NextBlock(Plane(b, Top), Square).value.yIndex == 2;
  }

  /** The planes of the first `k` blocks of a flat plane: one top face per block, in block order. */
  lemma {:induction false} FlatPlanes(blocks: seq<Block>, width: nat, height: nat, k: nat)
    requires k <= |blocks| && forall b :: b in blocks ==> ValidBlock(b) && b.yIndex == 1
    ensures |Planes(blocks, width, height, k)| == k
    ensures forall i :: 0 <= i < k ==> Planes(blocks, width, height, k)[i] == Plane(blocks[i], Top)
  {
    if k > 0 {
      ghost var j: nat := k - 1;
      FlatPlanes(blocks, width, height, j);
      FlatExposed(blocks, width, height, blocks[j]);
      assert Planes(blocks, width, height, k) == Planes(blocks, width, height, j) + [Plane(blocks[j], Top)];
    }
  }

  /**
   * On a plane where every block sits on layer 1, only top faces survive,
   * and every block shows exactly its top: one plane per block, in order.
   */
  lemma FlatPlaneHasOnlyTops(blocks: seq<Block>, width: nat, height: nat)
    requires forall b :: b in blocks ==> ValidBlock(b) && b.yIndex == 1
    ensures forall p :: p in Planes(blocks, width, height, |blocks|) ==> p.dir == Top
    ensures forall b :: b in blocks ==> Plane(b, Top) in Planes(blocks, width, height, |blocks|)
    ensures |Planes(blocks, width, height, |blocks|)| == |blocks|
    ensures forall i :: 0 <= i < |blocks| ==> Planes(blocks, width, height, |blocks|)[i] == Plane(blocks[i], Top)
  {
    FlatPlanes(blocks, width, height, |blocks|);
    var pv := Planes(blocks, width, height, |blocks|);
    forall b | b in blocks
      ensures Plane(b, Top) in pv
    {
      var i :| 0 <= i < |blocks| && blocks[i] == b;
      assert pv[i] == Plane(b, Top);
    }
  }
}
