/** `BasicBuilder`: the block lattice (crates/generator/src/builder/basic.rs). */
module Builder {
  import opened Wrappers
  import opened Unsigned
  import opened Vec2
  import opened Types
  import opened Dir
  import opened Interpolate
  import opened Random

  /** `BV`: the blocks in emission order and the plane size. */
  datatype BV = BV(blocks: seq<Block>, width: nat, height: nat)

  /** `(a as f64 * b as f64) as u32` for small naturals is exact. */
  lemma RealProduct(a: nat, b: nat)
    requires a <= 10 && b < 0x100
    ensures a * b <= 10 * 0xff
    ensures (a as real * b as real).Floor == a * b
  {
    assert a as real * b as real == (a * b) as real;
  }

  /** One side of `get_plane_size`: the interpolated size per player times the player count. */
  function PlaneSide(ratio: real, players: nat): (r: nat)
    requires 0.0 <= ratio <= 1.0 && players < 0x100
    ensures r == PlaneSizePerSqrtPlayer(ratio) * players
    ensures r < U32_MOD
  {
    var k := PlaneSizePerSqrtPlayer(ratio);
    RealProduct(k, players);
    SaturatingU32(k as real * players as real)
  }

  /** `get_plane_size`: (width, height). */
  function PlaneSize(c: GMConfig): (r: (nat, nat))
    requires ValidConfig(c)
    ensures r.0 == PlaneSizePerSqrtPlayer(c.width) * c.playerCount
    ensures r.1 == PlaneSizePerSqrtPlayer(c.height) * c.playerCount
  {
    (PlaneSide(c.width, c.playerCount), PlaneSide(c.height, c.playerCount))
  }

  /** Each side of the plane lies between 2 and 10 cells per player. */
  lemma PlaneSizeBounds(c: GMConfig)
    requires ValidConfig(c)
    ensures var (w, h) := PlaneSize(c);
      2 * c.playerCount <= w <= 10 * c.playerCount && 2 * c.playerCount <= h <= 10 * c.playerCount
  {
    var kw, kh := PlaneSizePerSqrtPlayer(c.width), PlaneSizePerSqrtPlayer(c.height);
    assert 2 * c.playerCount <= kw * c.playerCount <= 10 * c.playerCount by {
      MulMonotone(2, kw, c.playerCount);
      MulMonotone(kw, 10, c.playerCount);
    }
    assert 2 * c.playerCount <= kh * c.playerCount <= 10 * c.playerCount by {
      MulMonotone(2, kh, c.playerCount);
      MulMonotone(kh, 10, c.playerCount);
    }
  }

  lemma MulMonotone(a: nat, b: nat, n: nat)
    requires a <= b
    ensures a * n <= b * n
  {
  }

  /** `gen_y`: a layer drawn from [1, max_y_index]. */
  method GenY(c: GMConfig, pos: Vec2) returns (y: int)
    requires ValidConfig(c)
    ensures 1 <= y <= MaxYIndex(c.yRatio) <= 5
  {
    y := RandomRange(1, MaxYIndex(c.yRatio));
  }

  /** A `(width + 1) x (height + 1)` height table, indexed `[x][y]`. */
  predicate IsTable(t: seq<seq<int>>, width: nat, height: nat) {
    |t| == width + 1 && forall x :: 0 <= x < |t| ==> |t[x]| == height + 1
  }

  /** The table after the first pass: drawn heights inside, 99 on row 0 and column 0. */
  ghost predicate DrawnTable(t: seq<seq<int>>, width: nat, height: nat, maxY: nat) {
    IsTable(t, width, height) &&
    forall x, y :: 0 <= x <= width && 0 <= y <= height ==>
      if 1 <= x && 1 <= y then 1 <= t[x][y] <= maxY else t[x][y] == 99
  }

  /** `y_index_table.get(p.x).and_then(|line| line.get(p.y))`. */
  function Lookup(t: seq<seq<int>>, p: Vec2): (r: Option<int>)
    ensures r.Some? <==> 0 <= p.x < |t| && 0 <= p.y < |t[p.x]|
    ensures r.Some? ==> r.value == t[p.x][p.y]
  {
    if 0 <= p.x < |t| && 0 <= p.y < |t[p.x]| then Some(t[p.x][p.y]) else None
  }

  /** The heights of the neighbours of `pos` that lie inside the table, in offset order. */
  function NeighborHeights(t: seq<seq<int>>, pos: Vec2, offsets: seq<Vec2>): (r: seq<int>)
    requires Fits(pos, U32) && forall d :: 0 <= d < |offsets| ==> Fits(offsets[d], U32)
    ensures |r| <= |offsets|
  {
    if offsets == [] then []
    else
      var rest := NeighborHeights(t, pos, offsets[1..]);
      match Lookup(t, WrappingAdd(offsets[0], pos, U32))
      case Some(h) => [h] + rest
      case None => rest
  }

  /** A height is listed exactly when some offset leads from `pos` to a cell of that height. */
  lemma {:induction false} NeighborHeightsMembers(t: seq<seq<int>>, pos: Vec2, offsets: seq<Vec2>)
    requires Fits(pos, U32) && forall d :: 0 <= d < |offsets| ==> Fits(offsets[d], U32)
    ensures forall h :: h in NeighborHeights(t, pos, offsets) <==>
      exists d :: 0 <= d < |offsets| && Lookup(t, WrappingAdd(offsets[d], pos, U32)) == Some(h)
  {
    if offsets != [] {
      NeighborHeightsMembers(t, pos, offsets[1..]);
      assert forall d :: 0 < d < |offsets| ==> offsets[d] == offsets[1..][d - 1];
      forall h | exists d :: 0 <= d < |offsets| && Lookup(t, WrappingAdd(offsets[d], pos, U32)) == Some(h)
        ensures h in NeighborHeights(t, pos, offsets)
      {
        var d :| 0 <= d < |offsets| && Lookup(t, WrappingAdd(offsets[d], pos, U32)) == Some(h);
        if d > 0 {
          assert Lookup(t, WrappingAdd(offsets[1..][d - 1], pos, U32)) == Some(h);
        }
      }
    }
  }

  /** `.min().copied().unwrap_or(default)`. */
  function MinOr(s: seq<int>, default: int): (m: int)
    ensures s == [] ==> m == default
    ensures s != [] ==> m in s && forall x :: x in s ==> m <= x
  {
    if s == [] then default
    else if |s| == 1 then s[0]
    else var m := MinOr(s[1..], default); assert s == [s[0]] + s[1..]; if s[0] <= m then s[0] else m
  }

  function Min(a: int, b: int): int { if a <= b then a else b }

  /** The blocks `lo..=hi` of column `pos`. */
  function Layers(pos: Vec2, lo: int, hi: int): (r: seq<Block>)
    ensures |r| == if lo <= hi then hi - lo + 1 else 0
  {
    if lo <= hi then seq(hi - lo + 1, k => Block(pos, lo + k)) else []
  }

  /** The lowest layer emitted for column (i, j): `min(lowest neighbour, own height)`. */
  function Floor(t: seq<seq<int>>, i: nat, j: nat): int
    requires i < |t| && j < |t[i]| && i < U32_MOD && j < U32_MOD
  {
    Min(MinOr(NeighborHeights(t, Vec2(i, j), SQUARE), t[i][j]), t[i][j])
  }

  /** A height table of the plane's shape whose indices are `u32` coordinates. */
  predicate Sized(t: seq<seq<int>>, width: nat, height: nat) {
    IsTable(t, width, height) && width < U32_MOD && height < U32_MOD
  }

  /** The blocks of column (i, j): from its floor up to its height `t[i][j]`. */
  function Column(t: seq<seq<int>>, width: nat, height: nat, i: nat, j: nat): seq<Block>
    requires Sized(t, width, height) && i <= width && j <= height
  {
    Layers(Vec2(i, j), Floor(t, i, j), t[i][j])
  }

  /** The blocks of columns (i, 1) .. (i, j). */
  function RowBlocks(t: seq<seq<int>>, width: nat, height: nat, i: nat, j: nat): seq<Block>
    requires Sized(t, width, height) && i <= width && j <= height
  {
    if j == 0 then [] else RowBlocks(t, width, height, i, j - 1) + Column(t, width, height, i, j)
  }

  /** The blocks of rows 1 .. i, each row over columns 1 .. height. */
  function GridBlocks(t: seq<seq<int>>, width: nat, height: nat, i: nat): seq<Block>
    requires Sized(t, width, height) && i <= width
  {
    if i == 0 then [] else GridBlocks(t, width, height, i - 1) + RowBlocks(t, width, height, i, height)
  }

  /** The blocks `build` emits for a height table. */
  function BuiltBlocks(t: seq<seq<int>>, width: nat, height: nat): seq<Block>
    requires IsTable(t, width, height) && width < U32_MOD && height < U32_MOD
  {
    GridBlocks(t, width, height, width)
  }

  /** The first pass of `build`: a drawn height for every cell (1..=width, 1..=height). */
  method DrawTable(c: GMConfig, width: nat, height: nat) returns (table: seq<seq<int>>)
    requires ValidConfig(c)
    ensures DrawnTable(table, width, height, MaxYIndex(c.yRatio))
  {
    table := seq(width + 1, _ => seq(height + 1, _ => 99));
    var i := 1;
    while i <= width
      invariant 1 <= i <= width + 1 && IsTable(table, width, height)
      invariant forall x, y :: 0 <= x <= width && 0 <= y <= height ==>
        if 1 <= x < i && 1 <= y then 1 <= table[x][y] <= MaxYIndex(c.yRatio) else table[x][y] == 99
    {
      var row := table[i];
      var j := 1;
      while j <= height
        invariant 1 <= j <= height + 1 && |row| == height + 1
        invariant forall y :: 0 <= y <= height ==>
          if 1 <= y < j then 1 <= row[y] <= MaxYIndex(c.yRatio) else row[y] == 99
      {
        var y := GenY(c, Vec2(i, j));
        row := row[j := y];
        j := j + 1;
      }
      table := table[i := row];
      i := i + 1;
    }
  }

  /** One column of the second pass of `build`: the layers of (i, j) from its floor to its height, appended to `acc`. */
  method EmitColumn(mode: GMMode, table: seq<seq<int>>, width: nat, height: nat,
                    i: nat, j: nat, acc: seq<Block>)
    returns (r: Result<seq<Block>, GenError>)
    requires Sized(table, width, height) && 1 <= i <= width && 1 <= j <= height
    ensures r.Ok? <==> mode == Square
    ensures r.Ok? ==> r.value == acc + Column(table, width, height, i, j)
    ensures r.Err? ==> r.error == UnsupportedMode
  {
    var cur := table[i][j];
    var pos := Vec2(i, j);
    var offsets := Dir.Dir(mode, pos);
    if offsets.Err? {
      return Err(offsets.error);
    }
    var lowest := MinOr(NeighborHeights(table, pos, offsets.value), cur);
    r := Ok(acc + Layers(pos, Min(lowest, cur), cur));
  }

  /** One row of the second pass of `build`: the layers of columns (i, 1) .. (i, height), appended to `acc`. */
  method EmitRow(mode: GMMode, table: seq<seq<int>>, width: nat, height: nat, i: nat,
                 acc: seq<Block>)
    returns (r: Result<seq<Block>, GenError>)
    requires IsTable(table, width, height) && width < U32_MOD && height < U32_MOD && 1 <= i <= width
    ensures r.Ok? <==> mode == Square || height == 0
    ensures r.Ok? ==> r.value == acc + RowBlocks(table, width, height, i, height)
    ensures r.Err? ==> r.error == UnsupportedMode
  {
    var blocks := acc;
    var j := 1;
    ghost var emitted := 0;
    while j <= height
      invariant 1 <= j <= height + 1 && emitted == j - 1
      invariant blocks == acc + RowBlocks(table, width, height, i, emitted)
      invariant mode != Square ==> j == 1
    {
      var next := EmitColumn(mode, table, width, height, i, j, blocks);
      if next.Err? {
        return next;
      }
      RowBlocksAppend(table, width, height, i, emitted, j, acc);
      blocks := next.value;
      emitted := j;
      j := j + 1;
    }
    assert emitted == height;
    r := Ok(blocks);
  }

  /** Appending column j to the blocks of columns 1 .. j - 1 gives those of columns 1 .. j. */
  lemma RowBlocksAppend(t: seq<seq<int>>, width: nat, height: nat, i: nat, k: nat, j: nat, acc: seq<Block>)
    requires Sized(t, width, height) && i <= width && j == k + 1 <= height
    ensures acc + RowBlocks(t, width, height, i, k) + Column(t, width, height, i, j)
         == acc + RowBlocks(t, width, height, i, j)
  {
  }

  /** The second pass of `build`: every column's layers from its floor to its height, row by row. */
  method EmitBlocks(mode: GMMode, table: seq<seq<int>>, width: nat, height: nat) returns (r: Result<seq<Block>, GenError>)
    requires IsTable(table, width, height) && width < U32_MOD && height < U32_MOD
    ensures r.Ok? <==> mode == Square || width == 0 || height == 0
    ensures r.Ok? ==> r.value == BuiltBlocks(table, width, height)
    ensures r.Err? ==> r.error == UnsupportedMode
  {
    var blocks: seq<Block> := [];
    var i := 1;
    ghost var emitted := 0;
    while i <= width
      invariant 1 <= i <= width + 1 && emitted == i - 1
      invariant blocks == GridBlocks(table, width, height, emitted)
      invariant mode != Square && height > 0 ==> i == 1
    {
      var next := EmitRow(mode, table, width, height, i, blocks);
      if next.Err? {
        return next;
      }
      GridBlocksAppend(table, width, height, emitted, i);
      blocks := next.value;
      emitted := i;
      i := i + 1;
    }
    assert emitted == width;
    r := Ok(blocks);
  }

  /** Appending row i to the blocks of rows 1 .. i - 1 gives those of rows 1 .. i. */
  lemma GridBlocksAppend(t: seq<seq<int>>, width: nat, height: nat, k: nat, i: nat)
    requires Sized(t, width, height) && i == k + 1 <= width
    ensures GridBlocks(t, width, height, k) + RowBlocks(t, width, height, i, height)
         == GridBlocks(t, width, height, i)
  {
  }

  /** `build`: draws a height for every cell, then emits each column's layers from its floor to its height; `heights` is the drawn table. */
  method Build(c: GMConfig) returns (r: Result<BV, GenError>, heights: seq<seq<int>>)
    requires ValidConfig(c)
    ensures var (width, height) := PlaneSize(c);
      && DrawnTable(heights, width, height, MaxYIndex(c.yRatio))
      && (r.Ok? <==> c.mode == Square || width == 0 || height == 0)
      && (r.Ok? ==> r.value == BV(BuiltBlocks(heights, width, height), width, height))
  {
    var (width, height) := PlaneSize(c);
    var table := DrawTable(c, width, height);
    heights := table;
    var blocks := EmitBlocks(c.mode, table, width, height);
    match blocks
    case Err(e) => r := Err(e);
    case Ok(bs) => r := Ok(BV(bs, width, height));
  }

  /** Block `b` is emitted for its column: inside the plane, between the column's floor and its height. */
  ghost predicate Emitted(t: seq<seq<int>>, width: nat, height: nat, b: Block)
    requires Sized(t, width, height)
  {
    1 <= b.pos.x <= width && 1 <= b.pos.y <= height &&
    Floor(t, b.pos.x, b.pos.y) <= b.yIndex <= t[b.pos.x][b.pos.y]
  }

  /** Column-major lexicographic order on (x, y, layer). */
  predicate Before(a: Block, b: Block) {
    a.pos.x < b.pos.x ||
    (a.pos.x == b.pos.x && (a.pos.y < b.pos.y || (a.pos.y == b.pos.y && a.yIndex < b.yIndex)))
  }

  predicate Sorted(s: seq<Block>) {
    forall k, l :: 0 <= k < l < |s| ==> Before(s[k], s[l])
  }

  lemma SortedConcat(a: seq<Block>, b: seq<Block>)
    requires Sorted(a) && Sorted(b)
    requires forall x, y :: x in a && y in b ==> Before(x, y)
    ensures Sorted(a + b)
  {
    forall k, l | 0 <= k < l < |a + b| ensures Before((a + b)[k], (a + b)[l]) {
      if l < |a| {
        assert Before(a[k], a[l]);
      } else if k < |a| {
        assert a[k] in a && b[l - |a|] in b;
      } else {
        assert Before(b[k - |a|], b[l - |a|]);
      }
    }
  }

  /** A column holds its layers from the floor to its height, bottom up. */
  lemma ColumnSpec(t: seq<seq<int>>, width: nat, height: nat, i: nat, j: nat)
    requires Sized(t, width, height) && i <= width && j <= height
    ensures forall b :: b in Column(t, width, height, i, j) <==> b.pos == Vec2(i, j) && Floor(t, i, j) <= b.yIndex <= t[i][j]
    ensures Sorted(Column(t, width, height, i, j))
  {
    var col, lo := Column(t, width, height, i, j), Floor(t, i, j);
    forall b: Block | b.pos == Vec2(i, j) && lo <= b.yIndex <= t[i][j] ensures b in col {
      assert col[b.yIndex - lo] == b;
    }
  }

  /** The blocks of row i, columns 1 .. j, are exactly the emitted blocks there, in order. */
  lemma {:induction false} RowBlocksSpec(t: seq<seq<int>>, width: nat, height: nat, i: nat, j: nat)
    requires Sized(t, width, height) && 1 <= i <= width && j <= height
    ensures forall b :: b in RowBlocks(t, width, height, i, j) <==>
      b.pos.x == i && b.pos.y <= j && Emitted(t, width, height, b)
    ensures Sorted(RowBlocks(t, width, height, i, j))
  {
    if j > 0 {
      RowBlocksSpec(t, width, height, i, j - 1);
      ColumnSpec(t, width, height, i, j);
      SortedConcat(RowBlocks(t, width, height, i, j - 1), Column(t, width, height, i, j));
    }
  }

  /** The blocks of rows 1 .. i are exactly the emitted blocks there, in order. */
  lemma {:induction false} GridBlocksSpec(t: seq<seq<int>>, width: nat, height: nat, i: nat)
    requires Sized(t, width, height) && i <= width
    ensures forall b :: b in GridBlocks(t, width, height, i) <==> b.pos.x <= i && Emitted(t, width, height, b)
    ensures Sorted(GridBlocks(t, width, height, i))
  {
    if i > 0 {
      GridBlocksSpec(t, width, height, i - 1);
      RowBlocksSpec(t, width, height, i, height);
      SortedConcat(GridBlocks(t, width, height, i - 1), RowBlocks(t, width, height, i, height));
    }
  }

  /** After the first pass, a column's floor is at least 1, at most its own height and at most every neighbour's height. */
  lemma FloorBounds(t: seq<seq<int>>, width: nat, height: nat, maxY: nat, i: nat, j: nat)
    requires DrawnTable(t, width, height, maxY) && width < U32_MOD && height < U32_MOD
    requires 1 <= i <= width && 1 <= j <= height
    ensures 1 <= Floor(t, i, j) <= t[i][j]
    ensures forall d, h :: 0 <= d < 4 && Lookup(t, WrappingAdd(SQUARE[d], Vec2(i, j), U32)) == Some(h) ==>
      Floor(t, i, j) <= h
  {
    var pos := Vec2(i, j);
    var hs := NeighborHeights(t, pos, SQUARE);
    NeighborHeightsMembers(t, pos, SQUARE);
    forall h | h in hs ensures 1 <= h {
      var d :| 0 <= d < 4 && Lookup(t, WrappingAdd(SQUARE[d], pos, U32)) == Some(h);
      var p := WrappingAdd(SQUARE[d], pos, U32);
      assert t[p.x][p.y] == h;
    }
  }

  /**
   * The blocks `build` returns: exactly the emitted ones, each once, in
   * row-major order.
   */
  lemma BuildBlocksExact(heights: seq<seq<int>>, width: nat, height: nat)
    requires width < U32_MOD && height < U32_MOD && IsTable(heights, width, height)
    ensures var blocks := BuiltBlocks(heights, width, height);
      && Sorted(blocks)
      && (forall b :: b in blocks <==> Emitted(heights, width, height, b))
  {
    GridBlocksSpec(heights, width, height, width);
  }

  /** After the first pass, every emitted layer lies in [1, max_y_index] and fits the block's `u32` fields. */
  lemma BuildLayersBounded(heights: seq<seq<int>>, width: nat, height: nat, maxY: nat)
    requires width < U32_MOD && height < U32_MOD && maxY < U32_MOD && DrawnTable(heights, width, height, maxY)
    ensures forall b :: Emitted(heights, width, height, b) ==> ValidBlock(b) && 1 <= b.yIndex <= maxY
  {
    forall b | Emitted(heights, width, height, b)
      ensures ValidBlock(b) && 1 <= b.yIndex <= maxY
    {
      ghost var x, y := b.pos.x, b.pos.y;
      FloorBounds(heights, width, height, maxY, x, y);
    }
  }

  /** After the first pass, the top block of every column is emitted. */
  lemma BuildTopsEmitted(heights: seq<seq<int>>, width: nat, height: nat, maxY: nat)
    requires width < U32_MOD && height < U32_MOD && maxY < U32_MOD && DrawnTable(heights, width, height, maxY)
    ensures forall x, y :: 1 <= x <= width && 1 <= y <= height ==> Emitted(heights, width, height, Block(Vec2(x, y), heights[x][y]))
  {
    forall x, y | 1 <= x <= width && 1 <= y <= height
      ensures Emitted(heights, width, height, Block(Vec2(x, y), heights[x][y]))
    {
      FloorBounds(heights, width, height, maxY, x, y);
    }
  }

  /**
   * After the first pass, each column reaches down to the lowest of its
   * neighbours, so no side face looks into a gap.
   */
  lemma BuildFloorsCovered(heights: seq<seq<int>>, width: nat, height: nat, maxY: nat)
    requires width < U32_MOD && height < U32_MOD && maxY < U32_MOD && DrawnTable(heights, width, height, maxY)
    ensures forall x, y, d, h ::
        (1 <= x <= width && 1 <= y <= height && 0 <= d < 4 &&
         Lookup(heights, WrappingAdd(SQUARE[d], Vec2(x, y), U32)) == Some(h)) ==>
        Floor(heights, x, y) <= h
  {
    forall x, y | 1 <= x <= width && 1 <= y <= height
      ensures forall d, h :: 0 <= d < 4 && Lookup(heights, WrappingAdd(SQUARE[d], Vec2(x, y), U32)) == Some(h) ==>
        Floor(heights, x, y) <= h
    {
      FloorBounds(heights, width, height, maxY, x, y);
    }
  }

  /** A plane with no rows or no columns has no blocks. */
  lemma {:induction false} EmptyPlane(t: seq<seq<int>>, width: nat, height: nat, i: nat)
    requires Sized(t, width, height) && i <= width
    requires width == 0 || height == 0
    ensures GridBlocks(t, width, height, i) == []
  {
    if i > 0 {
      EmptyPlane(t, width, height, i - 1);
    }
  }
}
