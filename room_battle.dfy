/**
 * The land arithmetic of a room's turn (app/core/server/room.ts): one
 * army moving from a land to a neighbouring one (`handleMove`), the lands of
 * a fallen general changing hands, the army growth of `addArmy`, and the
 * movement check. A room edits the lands of its map one cell at a time
 * through `forEach`-style sweeps over rows `1..=height` and columns
 * `1..=width`; `Sweep` names what such a sweep does to a single land.
 */
module Battle {
  import opened Wrappers
  import opened Matrices
  import opened ServerMap
  import ClientGm

  /** The army that moves: half of it, rounded down, when the move is a half move. */
  function Moved(amount: int, half: bool): (r: int)
    ensures half ==> 2 * r <= amount < 2 * r + 2
    ensures !half ==> r == amount
  {
    if half then amount / 2 else amount
  }

  /** `Math.ceil(a / 2)`. */
  function CeilHalf(a: int): (r: int)
    ensures a <= 2 * r < a + 2
  {
    -((-a) / 2)
  }

  /** The two lands after a move, and the colour of a general that fell with it. */
  datatype Clash = Clash(from: Tile, to: Tile, fallen: Option<int>)

  /**
   * `handleMove` for two different lands `f` and `t`; `allied` says whether
   * the colours' teams agree. The source gives up the moved army and keeps
   * its colour and type; a general falls exactly when an enemy army larger
   * than its own reaches it, and then turns into the mover's city.
   */
  function Move(f: Tile, t: Tile, allied: bool, half: bool): (r: Clash)
    ensures r.from == Tile(f.color, f.kind, f.amount - Moved(f.amount, half))
    ensures allied ==> r.to.amount == t.amount + Moved(f.amount, half) && r.to.kind == t.kind
    ensures r.fallen.Some? <==> !allied && t.kind == General && t.amount < Moved(f.amount, half)
    ensures r.fallen.Some? ==> r.fallen.value == t.color && r.to == Tile(f.color, City, Moved(f.amount, half) - t.amount - 1)
  {
    var m := Moved(f.amount, half);
    var from := f.(amount := f.amount - m);
    if allied then
      var color := if f.color != t.color && t.kind != General then f.color else t.color;
      Clash(from, Tile(color, t.kind, t.amount + m), None)
    else
      var left := t.amount - m;
      if left >= 0 then Clash(from, t.(amount := left), None)
      else if t.kind == General then Clash(from, Tile(f.color, City, -left - 1), Some(t.color))
      else Clash(from, Tile(f.color, t.kind, -left - 1), None)
  }

  /**
   * Between allies the army only changes hands: the two amounts keep their
   * sum, the source keeps its colour, and the target takes the mover's
   * colour unless it is a general.
   */
  lemma AlliedMove(f: Tile, t: Tile, half: bool)
    ensures var c := Move(f, t, true, half);
      && c.from.amount + c.to.amount == f.amount + t.amount
      && c.from.color == f.color && c.from.kind == f.kind
      && c.to.kind == t.kind
      && c.to.color == (if t.kind == General then t.color else f.color)
      && c.fallen == None
  {
  }

  /**
   * Against an enemy both lands lose the moved army; a target driven below
   * zero is taken, holding `-amount - 1` in the mover's colour, and a general
   * so taken becomes a city and reports its old colour.
   */
  lemma HostileMove(f: Tile, t: Tile, half: bool)
    ensures var m := Moved(f.amount, half); var c := Move(f, t, false, half);
      && c.from == f.(amount := f.amount - m)
      && (t.amount >= m ==> c.to == t.(amount := t.amount - m) && c.fallen == None)
      && (t.amount < m ==> c.to.color == f.color && c.to.amount == m - t.amount - 1 && c.to.amount >= 0)
      && (t.amount < m ==> c.to.kind == if t.kind == General then City else t.kind)
      && (c.fallen.Some? <==> t.amount < m && t.kind == General)
      && (c.fallen.Some? ==> c.fallen.value == t.color)
  {
  }

  /** A full move leaves nothing behind and a half move leaves the larger half. */
  lemma MovedLeaves(amount: int, half: bool)
    requires amount >= 0
    ensures !half ==> amount - Moved(amount, half) == 0
    ensures half ==> amount - Moved(amount, half) == CeilHalf(amount)
  {
  }

  /** What a sweep does to one land. */
  datatype Sweep =
    | Grow(turns: int)                  // `addArmy` in the given turn
    | Surrender(victim: int, victor: int) // the lands of a fallen general go over

  /** One land of a sweep. */
  function SweepTile(s: Sweep, t: Tile): Tile {
    match s
    case Grow(turns) =>
      if t.color == 0 then t
      else if t.kind == City || t.kind == General then t.(amount := t.amount + 1)
      else if t.kind == Land && turns % 25 == 0 then t.(amount := t.amount + 1)
      else t
    case Surrender(victim, victor) =>
      if t.color == victim then Tile(victor, t.kind, CeilHalf(t.amount)) else t
  }

  /**
   * `addArmy` never changes a colour or a type and adds at most one: cities
   * and generals that someone owns grow every turn, owned plain land every
   * 25th turn, and nothing else grows.
   */
  lemma GrowSpec(turns: int, t: Tile)
    ensures var r := SweepTile(Grow(turns), t);
      && r.color == t.color && r.kind == t.kind
      && (r.amount == t.amount + 1 <==> t.color != 0 && (t.kind == City || t.kind == General || (t.kind == Land && turns % 25 == 0)))
      && (r.amount != t.amount + 1 ==> r == t)
  {
  }

  /** After a surrender the victim owns nothing the sweep reached; every land it owned is the victor's with its army halved, rounded up. */
  lemma SurrenderSpec(victim: int, victor: int, t: Tile)
    requires victim != victor
    ensures var r := SweepTile(Surrender(victim, victor), t);
      && r.color != victim
      && r.kind == t.kind
      && (t.color == victim ==> r.color == victor && t.amount <= 2 * r.amount < t.amount + 2)
      && (t.color != victim ==> r == t)
  {
  }

  /** The land `(a, b)` after a sweep: the cells of rows `1..=h` and columns `1..=w` are changed, the padding is not. */
  function SweptAt(grid: Grid, h: int, w: int, s: Sweep, a: int, b: int): Tile
    requires Has(grid, Pos(a, b))
  {
    if ClientGm.InBounds(Pos(a, b), h, w) then SweepTile(s, grid[a][b]) else grid[a][b]
  }

  /** `cur` is `grid` with the cells before `(i, j)` in row-major order swept. */
  ghost predicate SweptBefore(cur: Grid, grid: Grid, h: int, w: int, s: Sweep, i: int, j: int)
    requires Shaped(grid, h, w)
  {
    && Shaped(cur, h, w)
    && forall a, b :: 0 <= a < |grid| && 0 <= b < |grid[a]| ==>
      cur[a][b] == if a < i || (a == i && b < j) then SweptAt(grid, h, w, s, a, b) else grid[a][b]
  }

  lemma SweepInit(grid: Grid, h: int, w: int, s: Sweep)
    requires Shaped(grid, h, w)
    ensures SweptBefore(grid, grid, h, w, s, 1, 0)
  {
  }

  /** Sweeping cell `(i, j)` moves the frontier one column on. */
  lemma SweepStep(cur: Grid, grid: Grid, h: int, w: int, s: Sweep, i: int, j: int, k: int)
    requires Shaped(grid, h, w) && ClientGm.InBounds(Pos(i, j), h, w) && k == j + 1
    requires SweptBefore(cur, grid, h, w, s, i, j)
    ensures cur[i][j] == grid[i][j]
    ensures SweptBefore(cur[i := cur[i][j := SweepTile(s, cur[i][j])]], grid, h, w, s, i, k)
  {
    var next := cur[i := cur[i][j := SweepTile(s, cur[i][j])]];
    assert cur[i][j] == grid[i][j];
    forall a, b | 0 <= a < |grid| && 0 <= b < |grid[a]|
      ensures next[a][b] == if a < i || (a == i && b < k) then SweptAt(grid, h, w, s, a, b) else grid[a][b]
    {
      if a != i || b != j {
        assert next[a][b] == cur[a][b];
      }
    }
    assert SweptBefore(next, grid, h, w, s, i, k);
  }

  /** A finished row moves the frontier to the start of the next. */
  lemma SweepRow(cur: Grid, grid: Grid, h: int, w: int, s: Sweep, i: int, j: int, k: int)
    requires Shaped(grid, h, w) && j > w && k == i + 1
    requires SweptBefore(cur, grid, h, w, s, i, j)
    ensures SweptBefore(cur, grid, h, w, s, k, 0)
  {
  }

  /** Past the last row, every cell is swept. */
  lemma SweepDone(cur: Grid, grid: Grid, h: int, w: int, s: Sweep, i: int)
    requires Shaped(grid, h, w) && i > h
    requires SweptBefore(cur, grid, h, w, s, i, 0)
    ensures forall a, b :: 0 <= a < |grid| && 0 <= b < |grid[a]| ==> cur[a][b] == SweptAt(grid, h, w, s, a, b)
  {
  }

  // ---------------------------------------------------------------------
  // checkMovement
  // ---------------------------------------------------------------------

  /**
   * `checkMovement` on a map of height `h` and width `w`: both ends on the
   * map, the target passable, the source the mover's own with at least one
   * army, and the target next to the source.
   */
  predicate MovementOk(grid: Grid, h: int, w: int, from: Pos, to: Pos, color: int)
    requires Shaped(grid, h, w)
    ensures MovementOk(grid, h, w, from, to, color) ==> Has(grid, from) && Has(grid, to)
  {
    && ClientGm.InBounds(from, h, w) && ClientGm.InBounds(to, h, w)
    && grid[to.x][to.y].kind != Mountain && grid[to.x][to.y].kind != UnknownMountain
    && grid[from.x][from.y].color == color && grid[from.x][from.y].amount >= 1
    && to in NeighboursOn(h, w, from)
  }

  /**
   * What `handleMove` may rely on: a checked movement joins two different
   * cells of the map, each a neighbour of the other. Wherever the check as
   * written does not throw, it gives the same answer.
   */
  lemma MovementOkSpec(grid: Grid, h: int, w: int, from: Pos, to: Pos, color: int)
    requires Shaped(grid, h, w)
    ensures MovementOk(grid, h, w, from, to, color) ==>
      Has(grid, from) && Has(grid, to) && from != to && from in NeighboursOn(h, w, to)
    ensures CheckMovementAsWritten(grid, h, w, from, to, color) != TypeError ==>
      CheckMovementAsWritten(grid, h, w, from, to, color) == Returns(MovementOk(grid, h, w, from, to, color))
  {
    if MovementOk(grid, h, w, from, to, color) {
      var k :| 0 <= k < 6 && to == ClientGm.Add(from, Dir(from)[k]);
      assert Dir(from)[k] != Pos(0, 0);
      NeighboursSymmetric(h, w, from, to);
    }
  }

  /** What running `checkMovement` as written gives: a boolean, or a `TypeError`. */
  datatype Outcome = Returns(value: bool) | TypeError

  /**
   * `checkMovement` as written: it calls `this.gm.neighbors`, which the
   * server map does not have (its method is `neighbours`), so every movement
   * that passes the other tests throws instead of being checked.
   */
  function CheckMovementAsWritten(grid: Grid, h: int, w: int, from: Pos, to: Pos, color: int): (r: Outcome)
    requires Shaped(grid, h, w)
    ensures r != Returns(true)
    ensures r == TypeError ==> Has(grid, from) && Has(grid, to) && grid[from.x][from.y].color == color
  {
    if !ClientGm.InBounds(from, h, w) || !ClientGm.InBounds(to, h, w) then Returns(false)
    else if grid[to.x][to.y].kind == Mountain || grid[to.x][to.y].kind == UnknownMountain then Returns(false)
    else if grid[from.x][from.y].color != color || grid[from.x][from.y].amount < 1 then Returns(false)
    else TypeError
  }

  /** As written, no movement is ever accepted: every one that should be throws. */
  lemma CheckMovementAsWrittenThrows(grid: Grid, h: int, w: int, from: Pos, to: Pos, color: int)
    requires Shaped(grid, h, w)
    ensures MovementOk(grid, h, w, from, to, color) ==> CheckMovementAsWritten(grid, h, w, from, to, color) == TypeError
    ensures CheckMovementAsWritten(grid, h, w, from, to, color) != Returns(true)
  {
  }

  /** A 1 x 2 map whose first land holds 2 armies of colour 1: moving right to a neighbour throws as written and is accepted when checked. */
  lemma CheckMovementCounterexample()
    ensures var row := [Tile(0, Land, 0), Tile(1, Land, 2), Tile(0, Land, 0)];
      var grid := [row, row];
      && Shaped(grid, 1, 2)
      && CheckMovementAsWritten(grid, 1, 2, Pos(1, 1), Pos(1, 2), 1) == TypeError
      && MovementOk(grid, 1, 2, Pos(1, 1), Pos(1, 2), 1)
  {
    var row := [Tile(0, Land, 0), Tile(1, Land, 2), Tile(0, Land, 0)];
    var grid := [row, row];
    assert Dir(Pos(1, 1)) == HEXAGON_ODD;
    assert Pos(1, 2) == ClientGm.Add(Pos(1, 1), Dir(Pos(1, 1))[3]);
  }
}
