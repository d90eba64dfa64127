/**
 * The client's game map (app/game/gm/gm.ts): a `Matrix` of lands that knows
 * its mode, with the per-mode direction offsets and the in-bounds
 * neighbours of a position. The TypeScript class extends `Matrix`; here a
 * `Gm` holds its matrix.
 */
module ClientGm {
  import opened Matrices

  datatype Mode = Hexagon | Square | Triangle

  /** `Land`: colour, type and amount, all 0 by default. */
  datatype Land = Land(color: int, kind: int, amount: int)

  const DefaultLand := Land(0, 0, 0)

  /** `Land.Type.City` and `Land.Type.Mountain`. */
  const CITY := 2
  const MOUNTAIN := 3

  /** `Land.accessible`: anything but a mountain. */
  predicate Accessible(l: Land) {
    l.kind != MOUNTAIN
  }

  /** JavaScript's `%`: the remainder takes the sign of the dividend. */
  function JsRem(a: int, n: int): (r: int)
    requires n > 0
    ensures a >= 0 ==> r == a % n
    ensures -n < r < n
  {
    if a >= 0 then a % n else -((-a) % n)
  }

  function Add(p: Pos, d: Pos): Pos {
    Pos(p.x + d.x, p.y + d.y)
  }

  function Neg(d: Pos): Pos {
    Pos(-d.x, -d.y)
  }

  const HEXAGON_ODD := [Pos(-1, -1), Pos(-1, 0), Pos(-1, 1), Pos(0, 1), Pos(1, 0), Pos(0, -1)]
  const HEXAGON_EVEN := [Pos(0, -1), Pos(-1, 0), Pos(0, 1), Pos(1, 1), Pos(1, 0), Pos(1, -1)]
  const SQUARE := [Pos(-1, 0), Pos(0, -1), Pos(1, 0), Pos(0, 1)]
  const TRIANGLE_EVEN := [Pos(1, 0), Pos(0, -1), Pos(0, 1)]
  const TRIANGLE_ODD := [Pos(-1, 0), Pos(0, -1), Pos(0, 1)]

  /**
   * `dir`: six hexagon offsets chosen by whether `y % 2 === 1`, the four
   * square offsets, or three triangle offsets chosen by whether
   * `(x + y) % 2 === 0`, with JavaScript's remainder.
   */
  function Dir(mode: Mode, p: Pos): (r: seq<Pos>)
    ensures |r| == match mode case Hexagon => 6 case Square => 4 case Triangle => 3
  {
    match mode
    case Hexagon => if JsRem(p.y, 2) == 1 then HEXAGON_ODD else HEXAGON_EVEN
    case Square => SQUARE
    case Triangle => if JsRem(p.x + p.y, 2) == 0 then TRIANGLE_EVEN else TRIANGLE_ODD
  }

  /** The positions `p + d` for the offsets `ds`, in order. */
  function Shift(p: Pos, ds: seq<Pos>): (r: seq<Pos>)
    ensures |r| == |ds| && forall k :: 0 <= k < |ds| ==> r[k] == Add(p, ds[k])
  {
    if ds == [] then [] else [Add(p, ds[0])] + Shift(p, ds[1..])
  }

  /**
   * On positions of positive coordinates the offsets are symmetric: for
   * every offset `d` of `p`, `-d` is an offset of `p + d`.
   */
  lemma DirSymmetric(mode: Mode, p: Pos, d: Pos)
    requires p.x >= 1 && p.y >= 1 && Add(p, d).x >= 1 && Add(p, d).y >= 1
    requires d in Dir(mode, p)
    ensures Neg(d) in Dir(mode, Add(p, d))
  {
    match mode {
      case Hexagon => HexagonSymmetric(p, d);
      case Square =>
      case Triangle => TriangleSymmetric(p, d);
    }
  }

  lemma HexagonSymmetric(p: Pos, d: Pos)
    requires p.y >= 1 && Add(p, d).y >= 1
    requires d in Dir(Hexagon, p)
    ensures Neg(d) in Dir(Hexagon, Add(p, d))
  {
    var q := Add(p, d);
    assert JsRem(p.y, 2) == p.y % 2 && JsRem(q.y, 2) == q.y % 2;
    if p.y % 2 == 1 {
      assert d in HEXAGON_ODD;
      if d.y == 0 {
        assert q.y % 2 == 1;
        assert Neg(d) in HEXAGON_ODD;
      } else {
        assert q.y % 2 == 0;
        assert Neg(d) in HEXAGON_EVEN;
      }
    } else {
      assert d in HEXAGON_EVEN;
      if d.y == 0 {
        assert q.y % 2 == 0;
        assert Neg(d) in HEXAGON_EVEN;
      } else {
        assert q.y % 2 == 1;
        assert Neg(d) in HEXAGON_ODD;
      }
    }
  }

  lemma TriangleSymmetric(p: Pos, d: Pos)
    requires p.x >= 1 && p.y >= 1 && Add(p, d).x >= 1 && Add(p, d).y >= 1
    requires d in Dir(Triangle, p)
    ensures Neg(d) in Dir(Triangle, Add(p, d))
  {
    if d.x == 0 {
      assert Neg(d) in TRIANGLE_EVEN && Neg(d) in TRIANGLE_ODD by {
        assert d == Pos(0, -1) || d == Pos(0, 1);
      }
    } else if d.x == 1 {
      TriangleDown(p, d);
    } else {
      TriangleUp(p, d);
    }
  }

  /** Only an even position steps down a row, and it lands on an odd one, which steps back up. */
  lemma TriangleDown(p: Pos, d: Pos)
    requires p.x >= 1 && p.y >= 1
    requires d in Dir(Triangle, p) && d.x == 1
    ensures Neg(d) in Dir(Triangle, Add(p, d))
  {
    assert JsRem(p.x + p.y, 2) == 0 && d == Pos(1, 0);
    NextParity(p.x + p.y, p.x + 1 + p.y);
  }

  /** Only an odd position steps up a row, and it lands on an even one, which steps back down. */
  lemma TriangleUp(p: Pos, d: Pos)
    requires p.x >= 1 && p.y >= 1 && Add(p, d).x >= 1
    requires d in Dir(Triangle, p) && d.x != 0 && d.x != 1
    ensures Neg(d) in Dir(Triangle, Add(p, d))
  {
    assert JsRem(p.x + p.y, 2) != 0 && d == Pos(-1, 0);
    NextParity(p.x - 1 + p.y, p.x + p.y);
  }

  /** Of two consecutive non-negative integers exactly one is odd. */
  lemma NextParity(s: int, t: int)
    requires s >= 0 && t == s + 1
    ensures JsRem(t, 2) == 1 - JsRem(s, 2)
  {
  }

  /** `p` lies in rows `1..=h` and columns `1..=w`. */
  predicate InBounds(p: Pos, h: int, w: int) {
    1 <= p.x <= h && 1 <= p.y <= w
  }

  /** The positions of `ps` in bounds, in order. */
  function KeepIn(ps: seq<Pos>, h: int, w: int): seq<Pos> {
    if ps == [] then []
    else (if InBounds(ps[0], h, w) then [ps[0]] else []) + KeepIn(ps[1..], h, w)
  }

  /** Filtering keeps exactly the positions in bounds, and no more than there were. */
  lemma {:induction false} KeepInSpec(ps: seq<Pos>, h: int, w: int)
    ensures |KeepIn(ps, h, w)| <= |ps|
    ensures forall q :: q in KeepIn(ps, h, w) <==> q in ps && InBounds(q, h, w)
  {
    if ps != [] {
      KeepInSpec(ps[1..], h, w);
      assert ps == [ps[0]] + ps[1..];
    }
  }

  /** Nothing is in bounds below row 1. */
  lemma {:induction false} KeepInNone(ps: seq<Pos>, h: int, w: int)
    requires h < 1
    ensures KeepIn(ps, h, w) == []
  {
    if ps != [] {
      KeepInNone(ps[1..], h, w);
    }
  }

  /** The neighbours of `p` on a map of the given mode, height and width. */
  function NeighborsOn(mode: Mode, h: int, w: int, p: Pos): seq<Pos> {
    KeepIn(Shift(p, Dir(mode, p)), h, w)
  }

  /** A position of `Shift(p, ds)` is `p` moved by one of the offsets. */
  lemma ShiftOffset(p: Pos, ds: seq<Pos>, q: Pos) returns (d: Pos)
    requires q in Shift(p, ds)
    ensures d in ds && q == Add(p, d)
  {
    var k :| 0 <= k < |ds| && Shift(p, ds)[k] == q;
    d := ds[k];
  }

  /** `p` moved by any of the offsets is a position of `Shift(p, ds)`. */
  lemma ShiftHas(p: Pos, ds: seq<Pos>, d: Pos)
    requires d in ds
    ensures Add(p, d) in Shift(p, ds)
  {
    var k :| 0 <= k < |ds| && ds[k] == d;
    assert Shift(p, ds)[k] == Add(p, d);
  }

  /** On a map of height `h` and width `w`, being neighbours is symmetric. */
  lemma NeighborsOnSymmetric(mode: Mode, h: int, w: int, p: Pos, q: Pos)
    requires InBounds(p, h, w) && q in NeighborsOn(mode, h, w, p)
    ensures p in NeighborsOn(mode, h, w, q)
  {
    KeepInSpec(Shift(p, Dir(mode, p)), h, w);
    var d := ShiftOffset(p, Dir(mode, p), q);
    DirSymmetric(mode, p, d);
    ShiftHas(q, Dir(mode, q), Neg(d));
    assert Add(q, Neg(d)) == p;
    KeepInSpec(Shift(q, Dir(mode, q)), h, w);
  }

  class Gm {
    var mode: Mode
    var grid: Matrix<Land>

    /** `new Gm(mode, lands)`: a map of the given mode over a matrix holding `lands`. */
    constructor (mode: Mode, lands: seq<seq<Land>>)
      ensures this.mode == mode && grid.rows == lands && fresh(grid)
    {
      this.mode := mode;
      grid := new Matrix.From(lands);
    }

    /** `Gm.empty`: `height + 1` rows of `width + 1` default lands. */
    static method Empty(mode: Mode, height: int, width: int) returns (gm: Gm)
      ensures fresh(gm) && fresh(gm.grid) && gm.mode == mode
      ensures gm.grid.rows == Filled(Count(height), Count(width), DefaultLand)
    {
      var m := Matrix.Default(height, width, DefaultLand);
      gm := new Gm(mode, m.rows);
    }

    /** `neighbors`: the positions `p + d` for the offsets `d` of `p` that `check` accepts, in offset order. */
    function Neighbors(p: Pos): (r: seq<Pos>)
      reads this, grid
      ensures |r| <= |Dir(mode, p)|
      ensures forall q :: q in r ==> grid.Check(q)
    {
      if grid.Height() >= 1 then
        KeepInSpec(Shift(p, Dir(mode, p)), grid.Height(), grid.Width());
        NeighborsOn(mode, grid.Height(), grid.Width(), p)
      else []
    }

    /** `check` is the bounds test against the matrix's height and width. */
    lemma CheckInBounds(q: Pos)
      ensures grid.Check(q) <==> grid.Height() >= 1 && InBounds(q, grid.Height(), grid.Width())
    {
    }

    /** The guard on an empty matrix changes nothing: no position lies in rows `1..=h` when `h < 1`. */
    lemma NeighborsUnguarded(p: Pos)
      requires |grid.rows| > 0
      ensures Neighbors(p) == NeighborsOn(mode, grid.Height(), grid.Width(), p)
    {
      if grid.Height() < 1 {
        KeepInNone(Shift(p, Dir(mode, p)), grid.Height(), grid.Width());
      }
    }

    /** A neighbour of `p` lies in the map at an offset of `p`, every such position is a neighbour, and there are at most as many as offsets. */
    lemma NeighborsSpec(p: Pos)
      ensures forall q :: q in Neighbors(p) <==> grid.Check(q) && exists d :: d in Dir(mode, p) && q == Add(p, d)
      ensures |Neighbors(p)| <= |Dir(mode, p)|
    {
      var ds := Dir(mode, p);
      if grid.Height() >= 1 {
        KeepInSpec(Shift(p, ds), grid.Height(), grid.Width());
      }
      forall q ensures q in Shift(p, ds) <==> exists d :: d in ds && q == Add(p, d) {
        if q in Shift(p, ds) {
          var k :| 0 <= k < |ds| && Shift(p, ds)[k] == q;
          assert ds[k] in ds;
        }
        if exists d :: d in ds && q == Add(p, d) {
          var d :| d in ds && q == Add(p, d);
          var k :| 0 <= k < |ds| && ds[k] == d;
          assert Shift(p, ds)[k] == q;
        }
      }
    }

    /** Being neighbours is symmetric between positions of the map. */
    lemma NeighborsSymmetric(p: Pos, q: Pos)
      requires grid.Check(p) && q in Neighbors(p)
      ensures p in Neighbors(q)
    {
      NeighborsOnSymmetric(mode, grid.Height(), grid.Width(), p, q);
    }
  }

  /** The square example of the tests: [2, 2] on a 3 x 3 map has [1, 2], [2, 1], [3, 2] and [2, 3]. */
  lemma SquareExample()
    ensures NeighborsOn(Square, 3, 3, Pos(2, 2)) == [Pos(1, 2), Pos(2, 1), Pos(3, 2), Pos(2, 3)]
  {
    assert Dir(Square, Pos(2, 2)) == SQUARE;
    assert Shift(Pos(2, 2), SQUARE) == [Pos(1, 2), Pos(2, 1), Pos(3, 2), Pos(2, 3)];
    SquareFilter();
  }

  lemma SquareFilter()
    ensures KeepIn([Pos(1, 2), Pos(2, 1), Pos(3, 2), Pos(2, 3)], 3, 3) == [Pos(1, 2), Pos(2, 1), Pos(3, 2), Pos(2, 3)]
  {
  }

  /** A hexagon example of the tests: [1, 2], in an even column of a 3 x 3 map, has five neighbours. */
  lemma HexagonExample()
    ensures NeighborsOn(Hexagon, 3, 3, Pos(1, 2)) == [Pos(1, 1), Pos(1, 3), Pos(2, 3), Pos(2, 2), Pos(2, 1)]
  {
    assert Dir(Hexagon, Pos(1, 2)) == HEXAGON_EVEN;
    assert Shift(Pos(1, 2), HEXAGON_EVEN) == [Pos(1, 1), Pos(0, 2), Pos(1, 3), Pos(2, 3), Pos(2, 2), Pos(2, 1)];
    HexagonFilter();
  }

  lemma HexagonFilter()
    ensures KeepIn([Pos(1, 1), Pos(0, 2), Pos(1, 3), Pos(2, 3), Pos(2, 2), Pos(2, 1)], 3, 3) == [Pos(1, 1), Pos(1, 3), Pos(2, 3), Pos(2, 2), Pos(2, 1)]
  {
  }

  /** A triangle example of the tests: [2, 2], with an even coordinate sum, has [3, 2], [2, 1] and [2, 3]. */
  lemma TriangleExample()
    ensures NeighborsOn(Triangle, 3, 3, Pos(2, 2)) == [Pos(3, 2), Pos(2, 1), Pos(2, 3)]
  {
    assert Dir(Triangle, Pos(2, 2)) == TRIANGLE_EVEN;
    assert Shift(Pos(2, 2), TRIANGLE_EVEN) == [Pos(3, 2), Pos(2, 1), Pos(2, 3)];
    TriangleFilter();
  }

  lemma TriangleFilter()
    ensures KeepIn([Pos(3, 2), Pos(2, 1), Pos(2, 3)], 3, 3) == [Pos(3, 2), Pos(2, 1), Pos(2, 3)]
  {
  }
}
