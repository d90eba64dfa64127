/**
 * The server's game map (app/core/server/game/map.ts): a hexagon grid of
 * lands with a padding row 0 and column 0, so that positions run from
 * [1, 1] to [height, width], and the fog of war that `mask` lays over it
 * for one player.
 */
module ServerMap {
  import opened Wrappers
  import opened Matrices
  import ClientGm

  /** `LandType`, with the members the server uses. */
  datatype LandType = Land | General | City | Mountain | Unknown | UnknownCity | UnknownMountain

  /** A `Land`, and its export `MaybeLand`: colour, type and amount. */
  datatype Tile = Tile(color: int, kind: LandType, amount: int)

  type Grid = seq<seq<Tile>>

  /** An exported map, `MaybeMap`; the only map mode is the hexagon. */
  datatype MaybeMap = MaybeMap(width: int, height: int, gm: Grid)

  /** The grid has the rows `0..=h`, each with the columns `0..=w`. */
  ghost predicate Shaped(grid: Grid, h: int, w: int) {
    && |grid| == Count(h)
    && forall i :: 0 <= i < |grid| ==> |grid[i]| == Count(w)
  }

  /** `p` names a cell of the grid, padding included. */
  predicate Has(grid: Grid, p: Pos) {
    0 <= p.x < |grid| && 0 <= p.y < |grid[p.x]|
  }

  /** A cell in rows `1..=h` and columns `1..=w` of a shaped grid exists. */
  lemma InBoundsHas(grid: Grid, h: int, w: int, p: Pos)
    requires Shaped(grid, h, w) && ClientGm.InBounds(p, h, w)
    ensures Has(grid, p)
  {
  }

  const HEXAGON_ODD := [Pos(-1, -1), Pos(-1, 0), Pos(-1, 1), Pos(0, 1), Pos(1, 0), Pos(0, -1)]
  const HEXAGON_EVEN := [Pos(0, -1), Pos(-1, 0), Pos(0, 1), Pos(1, 1), Pos(1, 0), Pos(1, -1)]

  /** `dir`: the six hexagon offsets, chosen by whether `j % 2 === 1` in JavaScript's remainder. */
  function Dir(p: Pos): (r: seq<Pos>)
    ensures |r| == 6
  {
    if ClientGm.JsRem(p.y, 2) == 1 then HEXAGON_ODD else HEXAGON_EVEN
  }

  /** The server's offsets are those of the client's hexagon mode. */
  lemma DirAgrees(p: Pos)
    ensures Dir(p) == ClientGm.Dir(ClientGm.Hexagon, p)
  {
  }

  /** `neighbours` on a map of height `h` and width `w`: `p` moved by each offset, in order, kept when in bounds. */
  function NeighboursOn(h: int, w: int, p: Pos): (r: seq<Pos>)
    ensures |r| <= 6
    ensures forall q :: q in r <==> ClientGm.InBounds(q, h, w) && exists k :: 0 <= k < 6 && q == ClientGm.Add(p, Dir(p)[k])
  {
    var ds := Dir(p);
    ClientGm.KeepInSpec(ClientGm.Shift(p, ds), h, w);
    ClientGm.KeepIn(ClientGm.Shift(p, ds), h, w)
  }

  /** Being neighbours is symmetric between cells of the map. */
  lemma NeighboursSymmetric(h: int, w: int, p: Pos, q: Pos)
    requires ClientGm.InBounds(p, h, w) && q in NeighboursOn(h, w, p)
    ensures p in NeighboursOn(h, w, q)
  {
    DirAgrees(p);
    DirAgrees(q);
    ClientGm.NeighborsOnSymmetric(ClientGm.Hexagon, h, w, p, q);
  }

  /** `teams.get(k)`: `undefined` for a missing key. */
  function Lookup(teams: map<int, int>, k: int): Option<int> {
    if k in teams then Some(teams[k]) else None
  }

  /** `ownedByTeam`: the land's colour maps to the same team as `myColor`, both possibly `undefined`. */
  predicate Owned(grid: Grid, myColor: int, teams: map<int, int>, p: Pos)
    requires Has(grid, p)
  {
    Lookup(teams, myColor) == Lookup(teams, grid[p.x][p.y].color)
  }

  /** `ps.some(ownedByTeam)`. */
  predicate SomeOwned(grid: Grid, myColor: int, teams: map<int, int>, ps: seq<Pos>)
    requires forall q :: q in ps ==> Has(grid, q)
  {
    ps != [] && (Owned(grid, myColor, teams, ps[0]) || SomeOwned(grid, myColor, teams, ps[1..]))
  }

  /** `some` holds exactly when one of the positions is owned. */
  lemma {:induction false} SomeOwnedSpec(grid: Grid, myColor: int, teams: map<int, int>, ps: seq<Pos>)
    requires forall q :: q in ps ==> Has(grid, q)
    ensures SomeOwned(grid, myColor, teams, ps) <==> exists q :: q in ps && Owned(grid, myColor, teams, q)
  {
    if ps != [] {
      SomeOwnedSpec(grid, myColor, teams, ps[1..]);
      assert ps == [ps[0]] + ps[1..];
    }
  }

  /** The cell `p` is hidden from `myColor`: a player, not owning it, and owning none of its neighbours. */
  predicate Hidden(grid: Grid, h: int, w: int, myColor: int, teams: map<int, int>, p: Pos)
    requires Shaped(grid, h, w) && ClientGm.InBounds(p, h, w)
  {
    && myColor != 0
    && !Owned(grid, myColor, teams, p)
    && !SomeOwned(grid, myColor, teams, NeighboursOn(h, w, p))
  }

  /** What a hidden land shows: its type disguised, colour and amount cleared. */
  function Hide(t: Tile): (r: Tile)
    ensures r.color == 0 && r.amount == 0
    ensures r.kind == (match t.kind case Mountain => UnknownMountain case City => UnknownCity case _ => Unknown)
  {
    var kind := if t.kind == Mountain then UnknownMountain else if t.kind == City then UnknownCity else Unknown;
    Tile(0, kind, 0)
  }

  /** The masked cell `(a, b)`: hidden cells of rows `1..=h` and columns `1..=w` are disguised, every other cell is kept. */
  function MaskedAt(grid: Grid, h: int, w: int, myColor: int, teams: map<int, int>, a: int, b: int): Tile
    requires Shaped(grid, h, w) && Has(grid, Pos(a, b))
  {
    if ClientGm.InBounds(Pos(a, b), h, w) && Hidden(grid, h, w, myColor, teams, Pos(a, b)) then Hide(grid[a][b])
    else grid[a][b]
  }

  /** `out` is `grid` with the cells before `(i, j)` in row-major order masked. */
  ghost predicate MaskedBefore(out: Grid, grid: Grid, h: int, w: int, myColor: int, teams: map<int, int>, i: int, j: int)
    requires Shaped(grid, h, w)
  {
    && Shaped(out, h, w)
    && forall a, b :: 0 <= a < |grid| && 0 <= b < |grid[a]| ==>
      out[a][b] == if a < i || (a == i && b < j) then MaskedAt(grid, h, w, myColor, teams, a, b) else grid[a][b]
  }

  lemma MaskInit(grid: Grid, h: int, w: int, myColor: int, teams: map<int, int>)
    requires Shaped(grid, h, w)
    ensures MaskedBefore(grid, grid, h, w, myColor, teams, 1, 0)
  {
  }

  /** Masking cell `(i, j)`, or leaving it, moves the frontier one column on. */
  lemma MaskStep(out: Grid, grid: Grid, h: int, w: int, myColor: int, teams: map<int, int>, i: int, j: int, k: int)
    requires Shaped(grid, h, w) && ClientGm.InBounds(Pos(i, j), h, w) && k == j + 1
    requires MaskedBefore(out, grid, h, w, myColor, teams, i, j)
    ensures Hidden(grid, h, w, myColor, teams, Pos(i, j)) ==>
      MaskedBefore(out[i := out[i][j := Hide(grid[i][j])]], grid, h, w, myColor, teams, i, k)
    ensures !Hidden(grid, h, w, myColor, teams, Pos(i, j)) ==> MaskedBefore(out, grid, h, w, myColor, teams, i, k)
  {
    var hidden := Hidden(grid, h, w, myColor, teams, Pos(i, j));
    var next := if hidden then out[i := out[i][j := Hide(grid[i][j])]] else out;
    assert MaskedAt(grid, h, w, myColor, teams, i, j) == if hidden then Hide(grid[i][j]) else grid[i][j];
    forall a, b | 0 <= a < |grid| && 0 <= b < |grid[a]|
      ensures next[a][b] == if a < i || (a == i && b < k) then MaskedAt(grid, h, w, myColor, teams, a, b) else grid[a][b]
    {
      if a != i || b != j {
        assert next[a][b] == out[a][b];
      }
    }
    assert MaskedBefore(next, grid, h, w, myColor, teams, i, k);
  }

  /** A finished row moves the frontier to the start of the next. */
  lemma MaskRow(out: Grid, grid: Grid, h: int, w: int, myColor: int, teams: map<int, int>, i: int, j: int, k: int)
    requires Shaped(grid, h, w) && j > w && k == i + 1
    requires MaskedBefore(out, grid, h, w, myColor, teams, i, j)
    ensures MaskedBefore(out, grid, h, w, myColor, teams, k, 0)
  {
  }

  /** Past the last row, every cell is masked. */
  lemma MaskDone(out: Grid, grid: Grid, h: int, w: int, myColor: int, teams: map<int, int>, i: int)
    requires Shaped(grid, h, w) && i > h
    requires MaskedBefore(out, grid, h, w, myColor, teams, i, 0)
    ensures forall a, b :: 0 <= a < |grid| && 0 <= b < |grid[a]| ==> out[a][b] == MaskedAt(grid, h, w, myColor, teams, a, b)
  {
  }

  /** A cell is hidden exactly when `myColor` is a player's, and neither the cell nor any neighbour is owned by its team. */
  lemma HiddenSpec(grid: Grid, h: int, w: int, myColor: int, teams: map<int, int>, p: Pos)
    requires Shaped(grid, h, w) && ClientGm.InBounds(p, h, w)
    ensures Hidden(grid, h, w, myColor, teams, p) <==>
      && myColor != 0
      && !Owned(grid, myColor, teams, p)
      && forall q :: q in NeighboursOn(h, w, p) ==> !Owned(grid, myColor, teams, q)
  {
    SomeOwnedSpec(grid, myColor, teams, NeighboursOn(h, w, p));
  }

  /** A spectator (colour 0) sees the whole map. */
  lemma SpectatorSeesAll(grid: Grid, h: int, w: int, teams: map<int, int>, a: int, b: int)
    requires Shaped(grid, h, w) && Has(grid, Pos(a, b))
    ensures MaskedAt(grid, h, w, 0, teams, a, b) == grid[a][b]
  {
  }

  /** A team's own cells, and every cell next to one of them, stay visible. */
  lemma OwnedSurroundingsVisible(grid: Grid, h: int, w: int, myColor: int, teams: map<int, int>, p: Pos, q: Pos)
    requires Shaped(grid, h, w) && ClientGm.InBounds(p, h, w) && Owned(grid, myColor, teams, p)
    requires q == p || q in NeighboursOn(h, w, p)
    ensures MaskedAt(grid, h, w, myColor, teams, q.x, q.y) == grid[q.x][q.y]
  {
    if q != p {
      NeighboursSymmetric(h, w, p, q);
      HiddenSpec(grid, h, w, myColor, teams, q);
    }
  }

  class Map {
    var width: int
    var height: int
    var gm: Grid

    ghost predicate Valid()
      reads this
    {
      Shaped(gm, height, width)
    }

    /** The constructor: `height + 1` rows of `width + 1` copies of the default land `blank`. */
    constructor(width: int, height: int, blank: Tile)
      ensures this.width == width && this.height == height
      ensures gm == Filled(Count(height), Count(width), blank)
      ensures Valid()
    {
      var rows: Grid := [];
      var i := 0;
      while i <= height
        invariant i <= Count(height)
        invariant rows == Filled(i, Count(width), blank)
      {
        var row: seq<Tile> := [];
        var j := 0;
        while j <= width
          invariant j <= Count(width)
          invariant row == Fill(j, blank)
        {
          FillSnoc(j, j + 1, blank);
          row := row + [blank];
          j := j + 1;
        }
        FilledSnoc(i, i + 1, Count(width), blank);
        rows := rows + [row];
        i := i + 1;
      }
      FilledSpec(Count(height), Count(width), blank);
      FillSpec(Count(width), blank);
      assert Shaped(rows, height, width);
      this.width := width;
      this.height := height;
      gm := rows;
    }

    /** `get`: the land in row `p.x` and column `p.y`. */
    function Get(p: Pos): (r: Tile)
      reads this
      requires Has(gm, p)
      ensures r == gm[p.x][p.y]
    {
      gm[p.x][p.y]
    }

    /** `set`: the cell `p` holds `land`; nothing else changes. */
    method Set(p: Pos, land: Tile)
      requires Has(gm, p)
      modifies this
      ensures gm == old(gm)[p.x := old(gm)[p.x][p.y := land]]
      ensures Get(p) == land
      ensures forall q :: Has(old(gm), q) && q != p ==> Has(gm, q) && Get(q) == old(Get(q))
      ensures width == old(width) && height == old(height)
      ensures old(Valid()) ==> Valid()
    {
      gm := gm[p.x := gm[p.x][p.y := land]];
    }

    /** `check`: the 1-based bounds test. */
    predicate Check(p: Pos)
      reads this
      ensures Check(p) <==> 1 <= p.x <= height && 1 <= p.y <= width
      ensures Check(p) && Valid() ==> Has(gm, p)
    {
      ClientGm.InBounds(p, height, width)
    }

    /** `accessible`: neither a mountain nor an unknown mountain. */
    predicate Accessible(p: Pos)
      reads this
      requires Has(gm, p)
      ensures Accessible(p) <==> Get(p).kind in {Land, General, City, Unknown, UnknownCity}
    {
      Get(p).kind != Mountain && Get(p).kind != UnknownMountain
    }

    /** `neighbours`: at most six positions, each one hexagon step from `p` and accepted by `check`. */
    function Neighbours(p: Pos): (r: seq<Pos>)
      reads this
      ensures |r| <= 6
      ensures forall q :: q in r <==> Check(q) && exists k :: 0 <= k < 6 && q == ClientGm.Add(p, Dir(p)[k])
      ensures Valid() ==> forall q :: q in r ==> Has(gm, q)
    {
      NeighboursOn(height, width, p)
    }

    /**
     * `ownedByTeam`: the land's colour and `myColor` map to the same team,
     * which also holds when neither has a team (both `undefined`).
     */
    predicate OwnedByTeam(p: Pos, myColor: int, teams: map<int, int>)
      reads this
      requires Has(gm, p)
      ensures OwnedByTeam(p, myColor, teams) <==>
        var c := Get(p).color;
        if myColor in teams then c in teams && teams[c] == teams[myColor] else c !in teams
    {
      Owned(gm, myColor, teams, p)
    }

    /** `export`: the dimensions and the lands as they are. */
    function Export(): (r: MaybeMap)
      reads this
      ensures r.width == width && r.height == height && r.gm == gm
      ensures Valid() ==> Shaped(r.gm, r.height, r.width)
    {
      MaybeMap(width, height, gm)
    }

    /** `mask`: the export with every cell hidden from `myColor` disguised. */
    method Mask(myColor: int, teams: map<int, int>) returns (ans: MaybeMap)
      requires Valid()
      ensures ans.width == width && ans.height == height && Shaped(ans.gm, height, width)
      ensures forall a, b :: 0 <= a < |gm| && 0 <= b < |gm[a]| ==> ans.gm[a][b] == MaskedAt(gm, height, width, myColor, teams, a, b)
    {
      ans := Export();
      var grid, h, w := gm, height, width;
      MaskInit(grid, h, w, myColor, teams);
      var i := 1;
      while i <= h
        invariant 1 <= i <= Count(h) || (i == 1 && h < 1)
        invariant ans.width == w && ans.height == h
        invariant MaskedBefore(ans.gm, grid, h, w, myColor, teams, i, 0)
      {
        var j := 1;
        while j <= w
          invariant 1 <= j <= Count(w) || (j == 1 && w < 1)
          invariant ans.width == w && ans.height == h
          invariant MaskedBefore(ans.gm, grid, h, w, myColor, teams, i, j)
        {
          var p := Pos(i, j);
          MaskStep(ans.gm, grid, h, w, myColor, teams, i, j, j + 1);
          if Hidden(grid, h, w, myColor, teams, p) {
            ans := ans.(gm := ans.gm[i := ans.gm[i][j := Hide(grid[i][j])]]);
          }
          j := j + 1;
        }
        MaskRow(ans.gm, grid, h, w, myColor, teams, i, j, i + 1);
        i := i + 1;
      }
      MaskDone(ans.gm, grid, h, w, myColor, teams, i);
    }
  }
}
