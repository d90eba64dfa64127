/** Direction table and block stepping (crates/algorithm/src/dir.rs). */
module Dir {
  import opened Wrappers
  import opened Unsigned
  import opened Vec2
  import opened Types

  /** `!1 + 1` over `u32`: the representation of -1. */
  const SUB1: int := (U32_MOD - 1 - 1) + 1

  /** The offsets of `Side(0..4)` in square mode: (1,0), (0,1), (-1,0), (0,-1). */
  const SQUARE: seq<Vec2> := [Vec2(1, 0), Vec2(0, 1), Vec2(SUB1, 0), Vec2(0, SUB1)]

  /** The signed offsets that SQUARE stands for. */
  const SIGNED_SQUARE: seq<Vec2> := [Vec2(1, 0), Vec2(0, 1), Vec2(-1, 0), Vec2(0, -1)]

  /** `SUB1.wrapping_add(2) == 1`: SUB1 is the additive inverse of 1 modulo 2^32. */
  lemma Sub1IsMinusOne()
    ensures IsU32(SUB1) && WrapAdd(SUB1, 2, U32_MOD) == 1 && WrapAdd(SUB1, 1, U32_MOD) == 0
  {
  }

  /** `dir(mode, pos)`: only square mode is implemented; any other mode panics. */
  function Dir(mode: GMMode, pos: Vec2): (r: Result<seq<Vec2>, GenError>)
    ensures r.Ok? <==> mode == Square
    ensures mode == Square ==> r.value == SQUARE
    ensures r.Ok? ==> |r.value| == Sides(mode)
    ensures r.Ok? ==> forall d :: 0 <= d < |r.value| ==> Fits(r.value[d], U32)
  {
    match mode
    case Square => Ok(SQUARE)
    case _ => Err(UnsupportedMode)
  }

  /** Each `dir` offset is the u32 representation of a signed unit step. */
  lemma DirOffsetsAreUnitSteps(mode: GMMode, pos: Vec2)
    requires Dir(mode, pos).Ok?
    ensures var offsets := Dir(mode, pos).value;
      forall d :: 0 <= d < |offsets| ==>
        offsets[d].x % U32_MOD == SIGNED_SQUARE[d].x % U32_MOD &&
        offsets[d].y % U32_MOD == SIGNED_SQUARE[d].y % U32_MOD
  {
  }

  /** `dir` does not depend on the position. */
  lemma DirIgnoresPosition(mode: GMMode, p: Vec2, q: Vec2)
    ensures Dir(mode, p) == Dir(mode, q)
  {
  }

  /** Directions for which square-mode `next_block` succeeds besides `Bottom`: the top and the four sides. */
  predicate SquareDir(dir: PlaneDir) { dir == Top || (dir.Side? && dir.d < 4) }

  /**
   * `next_block`: `Top` and `Bottom` change the layer, `Side(d)` adds the d-th
   * offset to the position. Layer arithmetic wraps as in a release build; an
   * unimplemented mode or a face index past the table is an error.
   */
  function NextBlock(plane: Plane, mode: GMMode): (r: Result<Block, GenError>)
    requires ValidBlock(plane.block)
    ensures r.Ok? ==> ValidBlock(r.value)
    ensures plane.dir == Top || plane.dir == Bottom ==> r.Ok? && r.value.pos == plane.block.pos
    ensures plane.dir == Top && plane.block.yIndex + 1 < U32_MOD ==> r.value.yIndex == plane.block.yIndex + 1
    ensures plane.dir == Bottom && plane.block.yIndex >= 1 ==> r.value.yIndex == plane.block.yIndex - 1
    ensures plane.dir.Side? ==> (r.Ok? <==> mode == Square && plane.dir.d < 4)
    ensures plane.dir.Side? && r.Ok? ==>
      r.value.yIndex == plane.block.yIndex &&
      r.value.pos == WrappingAdd(plane.block.pos, SQUARE[plane.dir.d], U32)
    ensures plane.dir.Side? && mode != Square ==> r == Err(UnsupportedMode)
  {
    var Block(pos, y) := plane.block;
    match plane.dir
    case Top => Ok(Block(pos, WrapAdd(y, 1, U32_MOD)))
    case Bottom => Ok(Block(pos, WrapSub(y, 1, U32_MOD)))
    case Side(d) =>
      match Dir(mode, pos)
      case Err(e) => Err(e)
      case Ok(offsets) =>
        if d < |offsets| then Ok(Block(WrappingAdd(pos, offsets[d], U32), y))
        else Err(UnsupportedDirection)
  }

  /** The layer of the block above or below, modulo 2^32 (so the top of layer 2^32 - 1 faces layer 0). */
  lemma NextBlockLayerWraps(b: Block)
    requires ValidBlock(b)
    ensures NextBlock(Plane(b, Top), Square).value.yIndex == (b.yIndex + 1) % U32_MOD
    ensures NextBlock(Plane(b, Bottom), Square).value.yIndex == (b.yIndex - 1) % U32_MOD
  {
    WrapAddIsModular(b.yIndex, 1, U32_MOD);
    WrapSubIsModular(b.yIndex, 1, U32_MOD);
  }

  /** Stepping `Side(d)` and then `Side((d + 2) % 4)` returns to the starting block. */
  lemma {:induction false} OppositeSidesCancel(b: Block, d: nat)
    requires ValidBlock(b) && d < 4
    ensures NextBlock(Plane(b, Side(d)), Square).Ok?
    ensures var n := NextBlock(Plane(b, Side(d)), Square).value;
      NextBlock(Plane(n, Side((d + 2) % 4)), Square) == Ok(b)
  {
    var e := (d + 2) % 4;
    var n := NextBlock(Plane(b, Side(d)), Square).value;
    assert n.pos == WrappingAdd(b.pos, SQUARE[d], U32);
    var back := NextBlock(Plane(n, Side(e)), Square).value;
    assert back.pos == WrappingAdd(n.pos, SQUARE[e], U32);
    WrappingAddAssociative(b.pos, SQUARE[d], SQUARE[e], U32);
    OppositeOffsetsCancel(d);
    assert back.pos == WrappingAdd(b.pos, Vec2(0, 0), U32);
  }

  /** Opposite square offsets add up to zero modulo 2^32. */
  lemma OppositeOffsetsCancel(d: nat)
    requires d < 4
    ensures WrappingAdd(SQUARE[d], SQUARE[(d + 2) % 4], U32) == Vec2(0, 0)
  {
  }

  /** Stepping `Top` and then `Bottom` returns to the starting block. */
  lemma TopThenBottom(b: Block)
    requires ValidBlock(b)
    ensures NextBlock(Plane(NextBlock(Plane(b, Top), Square).value, Bottom), Square) == Ok(b)
  {
  }
}
