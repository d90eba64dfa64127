/**
 * The wasm game map and its indexing (wasm/src/map.rs, wasm/src/map_index.rs):
 * row-major lands, bounds checks, accessibility and the neighbours of an
 * index in hexagon or square mode. Offsets are `usize` pairs in which `!0`
 * stands for -1; adding one wraps modulo 2^32.
 */
module WasmMap {
  import opened Unsigned
  import opened WasmPos

  datatype Mode = Hexagon | Square

  /** The land types of the wasm crate, in the order of its testing shorthands. */
  datatype Type = Land | Mountain | City | Crown | Obstacle | Fog | Swamp

  /** A land of the wasm map: its type, colour and amount. */
  datatype Tile = Tile(kind: Type, color: nat, amount: nat)

  /** `Map`: `size` lands in row-major order. */
  datatype Map = Map(mode: Mode, width: nat, height: nat, size: nat, lands: seq<Tile>)

  /** `size` is `width * height` without wrapping, and `lands` holds that many lands. */
  predicate Valid(m: Map) {
    m.size == m.width * m.height && m.size < USIZE_MOD && |m.lands| == m.size
  }

  /** `!0`, the `usize` that an offset uses for -1. */
  const NEG: nat := USIZE_MOD - 1

  const HEXAGON_ODD_COLUMNS: seq<Pos> := [Pos(0, NEG), Pos(NEG, 0), Pos(0, 1), Pos(1, 1), Pos(1, 0), Pos(1, NEG)]
  const HEXAGON_EVEN_COLUMNS: seq<Pos> := [Pos(NEG, NEG), Pos(NEG, 0), Pos(NEG, 1), Pos(0, 1), Pos(1, 0), Pos(0, NEG)]
  const SQUARE: seq<Pos> := [Pos(1, 0), Pos(0, 1), Pos(NEG, 0), Pos(0, NEG)]

  /** `check_pos`: the position lies on the map. */
  predicate CheckPos(m: Map, p: Pos) {
    p.row < m.height && p.col < m.width
  }

  /** `access`: the land can be entered, i.e. it is neither a mountain nor an obstacle. */
  predicate Access(m: Map, index: nat)
    requires index < |m.lands|
  {
    m.lands[index].kind != Mountain && m.lands[index].kind != Obstacle
  }

  /** The offset table of a cell in column `col`: by the parity of the column (`y & 1`) on a hexagon map. */
  function DirFor(mode: Mode, col: nat): (r: seq<Pos>)
    ensures |r| == if mode == Hexagon then 6 else 4
  {
    match mode
    case Hexagon => if col % 2 == 0 then HEXAGON_EVEN_COLUMNS else HEXAGON_ODD_COLUMNS
    case Square => SQUARE
  }

  /** `dir`: the table of the column of `index`; only hexagon maps look at the column. */
  function Dir(m: Map, index: nat): (r: seq<Pos>)
    requires m.mode == Hexagon ==> m.width > 0
    ensures |r| == if m.mode == Hexagon then 6 else 4
    ensures m.width > 0 ==> r == DirFor(m.mode, ToPos(index, m.width).col)
  {
    match m.mode
    case Hexagon => DirFor(Hexagon, ToPos(index, m.width).col)
    case Square => SQUARE
  }

  /** `pos + delta` on `usizex2`: each component wraps modulo 2^32. */
  function AddPos(p: Pos, d: Pos): (r: Pos)
    ensures r.row < USIZE_MOD && r.col < USIZE_MOD
  {
    Pos((p.row + d.row) % USIZE_MOD, (p.col + d.col) % USIZE_MOD)
  }

  /** A cell of the grid has an index below `height * width`. */
  lemma CellBelowSize(r: nat, c: nat, width: nat, height: nat)
    requires r < height && c < width
    ensures r * width + c < height * width
  {
    assert (r + 1) * width == r * width + width;
    MulMonotone(r + 1, height, width);
  }

  /** Multiplication by a natural number is monotone. */
  lemma {:induction false} MulMonotone(a: nat, b: nat, w: nat)
    requires a <= b
    ensures a * w <= b * w
  {
    if a < b {
      MulMonotone(a, b - 1, w);
      assert b * w == (b - 1) * w + w;
    }
  }

  /** The indices reached from `pos` by the offsets `dirs`, kept in order when on the map and accessible. */
  function Reached(m: Map, pos: Pos, dirs: seq<Pos>): (r: seq<nat>)
    requires Valid(m)
    ensures |r| <= |dirs|
    ensures forall i :: 0 <= i < |r| ==> r[i] < |m.lands| && Access(m, r[i])
  {
    if dirs == [] then []
    else
      var p := AddPos(pos, dirs[0]);
      var rest := Reached(m, pos, dirs[1..]);
      if CheckPos(m, p) then
        CellBelowSize(p.row, p.col, m.width, m.height);
        var i := ToIndex(p, m.width);
        if Access(m, i) then [i] + rest else rest
      else rest
  }

  /** `neighbors`: the accessible lands around `index`, at most six on a hexagon map and four on a square one. */
  function Neighbors(m: Map, index: nat): (r: seq<nat>)
    requires Valid(m) && m.width > 0
    ensures |r| <= if m.mode == Hexagon then 6 else 4
    ensures forall i :: 0 <= i < |r| ==> r[i] < |m.lands| && Access(m, r[i])
  {
    Reached(m, ToPos(index, m.width), Dir(m, index))
  }

  /** The offset `!0` read as -1. */
  function Signed(x: nat): int {
    if x == NEG then -1 else x
  }

  /** Every component of every offset is 0, 1 or `!0`. */
  ghost predicate Unit(dirs: seq<Pos>) {
    forall i :: 0 <= i < |dirs| ==> dirs[i].row in {0, 1, NEG} && dirs[i].col in {0, 1, NEG}
  }

  /**
   * Reference definition of a neighbour: the cell at the signed offset `d`
   * from `pos` lies on the grid, is `x`, and is accessible.
   */
  ghost predicate Hit(m: Map, pos: Pos, d: Pos, x: nat)
    requires Valid(m)
  {
    var r := pos.row + Signed(d.row);
    var c := pos.col + Signed(d.col);
    0 <= r < m.height && 0 <= c < m.width && x == r * m.width + c && x < m.size && Access(m, x)
  }

  /** One component: the wrapped sum stays below `bound` exactly when the signed one lies in `[0, bound)`, and then they agree. */
  lemma WrapUnit(a: nat, o: nat, bound: nat)
    requires a < bound <= NEG && o in {0, 1, NEG}
    ensures var w := (a + o) % USIZE_MOD;
      && (w < bound <==> 0 <= a + Signed(o) < bound)
      && (w < bound ==> w == a + Signed(o))
  {
    if o == NEG {
      if a == 0 {
        assert (a + o) % USIZE_MOD == NEG;
      } else {
        assert (a + o) % USIZE_MOD == a - 1;
      }
    } else {
      assert (a + o) % USIZE_MOD == a + o;
    }
  }

  /** A map with a cell has no side longer than its size. */
  lemma SidesBelowSize(m: Map)
    requires Valid(m) && m.width > 0 && m.height > 0
    ensures m.height <= NEG && m.width <= NEG
  {
    MulAtLeast(m.height, m.width);
    MulAtLeast(m.width, m.height);
  }

  /** A product with a positive factor is at least the other factor. */
  lemma {:induction false} MulAtLeast(a: nat, b: nat)
    requires b >= 1
    ensures a * b >= a
  {
    if b > 1 {
      MulAtLeast(a, b - 1);
      assert a * b == a * (b - 1) + a;
    }
  }

  /** For a position on the map, the wrapped offset lands on the map exactly when the signed one does, at the same cell. */
  lemma StepSpec(m: Map, pos: Pos, d: Pos)
    requires Valid(m) && CheckPos(m, pos)
    requires d.row in {0, 1, NEG} && d.col in {0, 1, NEG}
    ensures var p := AddPos(pos, d);
      && (CheckPos(m, p) <==> (0 <= pos.row + Signed(d.row) < m.height && 0 <= pos.col + Signed(d.col) < m.width))
      && (CheckPos(m, p) ==> p.row == pos.row + Signed(d.row) && p.col == pos.col + Signed(d.col))
  {
    SidesBelowSize(m);
    WrapUnit(pos.row, d.row, m.height);
    WrapUnit(pos.col, d.col, m.width);
  }

  /** The offset `d` from `pos` takes `Reached` to the accessible cell `x`. */
  ghost predicate Contributes(m: Map, pos: Pos, d: Pos, x: nat)
    requires Valid(m)
  {
    var p := AddPos(pos, d);
    CheckPos(m, p) && x == ToIndex(p, m.width) && x < m.size && Access(m, x)
  }

  /** `Reached` holds exactly the cells some offset of `dirs` contributes. */
  lemma {:induction false} ReachedContributes(m: Map, pos: Pos, dirs: seq<Pos>, x: nat)
    requires Valid(m)
    ensures x in Reached(m, pos, dirs) <==> exists d :: d in dirs && Contributes(m, pos, d, x)
  {
    if dirs != [] {
      var d := dirs[0];
      ReachedContributes(m, pos, dirs[1..], x);
      assert forall e :: e in dirs <==> e == d || e in dirs[1..];
      assert x in Reached(m, pos, dirs) <==> Contributes(m, pos, d, x) || x in Reached(m, pos, dirs[1..]);
    }
  }

  /** For a unit offset from a cell on the map, contributing is the signed reference definition. */
  lemma ContributesIsHit(m: Map, pos: Pos, d: Pos, x: nat)
    requires Valid(m) && CheckPos(m, pos)
    requires d.row in {0, 1, NEG} && d.col in {0, 1, NEG}
    ensures Contributes(m, pos, d, x) <==> Hit(m, pos, d, x)
  {
    StepSpec(m, pos, d);
    var p := AddPos(pos, d);
    if CheckPos(m, p) {
      CellBelowSize(p.row, p.col, m.width, m.height);
    }
  }

  /** `Reached` holds exactly the cells that some offset of `dirs` hits. */
  lemma ReachedSpec(m: Map, pos: Pos, dirs: seq<Pos>, x: nat)
    requires Valid(m) && CheckPos(m, pos) && Unit(dirs)
    ensures x in Reached(m, pos, dirs) <==> exists d :: d in dirs && Hit(m, pos, d, x)
  {
    ReachedContributes(m, pos, dirs, x);
    forall d | d in dirs ensures Contributes(m, pos, d, x) <==> Hit(m, pos, d, x) {
      ContributesIsHit(m, pos, d, x);
    }
  }

  /** The tables only hold unit offsets. */
  lemma DirUnit(m: Map, index: nat)
    requires m.mode == Hexagon ==> m.width > 0
    ensures Unit(Dir(m, index))
  {
  }

  /**
   * For an index on the map, `neighbors` holds exactly the accessible cells
   * one signed table offset away: the wrap-around of `!0` never lets a
   * position leave the map at row or column 0 and come back on the far side.
   */
  lemma NeighborsSpec(m: Map, index: nat, x: nat)
    requires Valid(m) && m.width > 0 && index < m.size
    ensures x in Neighbors(m, index) <==> exists d :: d in Dir(m, index) && Hit(m, ToPos(index, m.width), d, x)
  {
    var pos := ToPos(index, m.width);
    IndexOnMap(m, index);
    DirUnit(m, index);
    ReachedSpec(m, pos, Dir(m, index), x);
  }

  /** A wrapped "negative" coordinate is never on the map. */
  lemma WrappedNegativeOutside(m: Map, p: Pos)
    requires Valid(m) && (p.row == NEG || p.col == NEG)
    ensures !CheckPos(m, p)
  {
    if m.width > 0 && m.height > 0 {
      assert m.height <= m.size by { assert m.height * m.width >= m.height; }
      assert m.width <= m.size by { assert m.height * m.width >= m.width; }
    }
  }

  /** The opposite of a unit offset. */
  function Opposite(d: Pos): (e: Pos)
    requires d.row in {0, 1, NEG} && d.col in {0, 1, NEG}
    ensures Signed(e.row) == -Signed(d.row) && Signed(e.col) == -Signed(d.col)
  {
    Pos(Flip(d.row), Flip(d.col))
  }

  /** The opposite of one unit component. */
  function Flip(x: nat): nat {
    if x == 0 then 0 else if x == 1 then NEG else 1
  }

  /** Every table offset has its opposite in the table of the column it leads to. */
  lemma OppositeInTable(mode: Mode, col: nat, d: Pos)
    requires d in DirFor(mode, col) && col + Signed(d.col) >= 0
    ensures Opposite(d) in DirFor(mode, col + Signed(d.col))
  {
  }

  /** An index below the size sits at a position on the map. */
  lemma IndexOnMap(m: Map, i: nat)
    requires Valid(m) && m.width > 0 && i < m.size
    ensures CheckPos(m, ToPos(i, m.width))
  {
  }

  /** The cell a hit reaches is at the signed position. */
  lemma HitPos(m: Map, p: Pos, d: Pos, x: nat)
    requires Valid(m) && m.width > 0 && Hit(m, p, d, x)
    ensures ToPos(x, m.width) == Pos(p.row + Signed(d.row), p.col + Signed(d.col))
  {
    PosRoundTrip(Pos(p.row + Signed(d.row), p.col + Signed(d.col)), m.width);
  }

  /** The opposite offset leads back: from the cell a hit reaches, it hits the cell it came from. */
  lemma HitBack(m: Map, p: Pos, d: Pos, i: nat)
    requires Valid(m) && CheckPos(m, p)
    requires d.row in {0, 1, NEG} && d.col in {0, 1, NEG}
    requires p.row + Signed(d.row) >= 0 && p.col + Signed(d.col) >= 0
    requires i == p.row * m.width + p.col && i < m.size && Access(m, i)
    ensures Hit(m, Pos(p.row + Signed(d.row), p.col + Signed(d.col)), Opposite(d), i)
  {
  }

  /** The opposite of an offset of `i` is an offset of the index it leads to. */
  lemma OppositeInDir(m: Map, i: nat, x: nat, d: Pos)
    requires m.width > 0 && d in Dir(m, i)
    requires ToPos(x, m.width).col == ToPos(i, m.width).col + Signed(d.col)
    ensures Opposite(d) in Dir(m, x)
  {
    OppositeInTable(m.mode, ToPos(i, m.width).col, d);
  }

  /** Between accessible lands of the map, being neighbours is symmetric. */
  lemma NeighborsSymmetric(m: Map, i: nat, x: nat)
    requires Valid(m) && m.width > 0 && i < m.size && Access(m, i)
    requires x in Neighbors(m, i)
    ensures i in Neighbors(m, x)
  {
    var pi := ToPos(i, m.width);
    NeighborsSpec(m, i, x);
    var d :| d in Dir(m, i) && Hit(m, pi, d, x);
    DirUnit(m, i);
    IndexOnMap(m, i);
    HitPos(m, pi, d, x);
    OppositeInDir(m, i, x, d);
    HitBack(m, pi, d, i);
    assert Hit(m, ToPos(x, m.width), Opposite(d), i);
    NeighborsSpec(m, x, i);
  }
}
