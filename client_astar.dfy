/**
 * The distance search of the client's map generator
 * (app/game/generator/aStar.ts): despite its name a breadth-first search,
 * which marks visited positions in a `Matrix` of booleans, never enters a
 * mountain or a city, and answers as soon as it discovers the target.
 */
module ClientAStar {
  import opened Wrappers
  import opened Bfs
  import opened Matrices
  import opened ClientGm

  /** Every row as long as the first, so that each checked position holds a land. */
  predicate Rectangular<T>(rows: seq<seq<T>>) {
    |rows| > 0 && forall x :: 0 <= x < |rows| ==> |rows[x]| == |rows[0]|
  }

  /** A position the search may enter: a land of the map that is neither a mountain nor a city. */
  predicate Enterable(rows: seq<seq<Land>>, p: Pos) {
    0 <= p.x < |rows| && 0 <= p.y < |rows[p.x]| && Accessible(rows[p.x][p.y]) && rows[p.x][p.y].kind != CITY
  }

  /** The map's neighbour function, for `height` and `width`. */
  function Nb(mode: Mode, h: int, w: int): Pos -> seq<Pos> {
    p => NeighborsOn(mode, h, w, p)
  }

  /** `Enterable` on the map `rows`. */
  function EnterableIn(rows: seq<seq<Land>>): Pos -> bool {
    p => Enterable(rows, p)
  }

  /** The search graph: the neighbours that may be entered. */
  function Graph(mode: Mode, rows: seq<seq<Land>>): Pos -> seq<Pos>
    requires |rows| > 0
  {
    Admitted(Nb(mode, |rows| - 1, |rows[0]| - 1), EnterableIn(rows))
  }

  /** `g` has an edge from `u` to `v` exactly when `v` is a neighbour of `u` on a map of height `h` and width `w` that may be entered. */
  ghost predicate Searches(g: Pos -> seq<Pos>, mode: Mode, rows: seq<seq<Land>>, h: int, w: int) {
    forall u, v {:trigger v in g(u)} :: v in g(u) <==> v in NeighborsOn(mode, h, w, u) && Enterable(rows, v)
  }

  /** An edge of `Graph` leads to a neighbour that may be entered, and every such neighbour is one. */
  lemma GraphEdge(mode: Mode, rows: seq<seq<Land>>, h: int, w: int, u: Pos, v: Pos)
    requires |rows| > 0 && h == |rows| - 1 && w == |rows[0]| - 1
    ensures v in Graph(mode, rows)(u) <==> v in NeighborsOn(mode, h, w, u) && Enterable(rows, v)
  {
    GraphUnfold(mode, rows, h, w);
    AdmittedEdge(Nb(mode, h, w), EnterableIn(rows), u, v);
    NbApply(mode, h, w, u);
    EnterableApply(rows, v);
  }

  lemma GraphUnfold(mode: Mode, rows: seq<seq<Land>>, h: int, w: int)
    requires |rows| > 0 && h == |rows| - 1 && w == |rows[0]| - 1
    ensures Graph(mode, rows) == Admitted(Nb(mode, h, w), EnterableIn(rows))
  {
  }

  lemma NbApply(mode: Mode, h: int, w: int, u: Pos)
    ensures Nb(mode, h, w)(u) == NeighborsOn(mode, h, w, u)
  {
  }

  lemma EnterableApply(rows: seq<seq<Land>>, v: Pos)
    ensures EnterableIn(rows)(v) == Enterable(rows, v)
  {
  }

  /** `Graph` is a search graph of its map. */
  lemma GraphSearches(mode: Mode, rows: seq<seq<Land>>, h: int, w: int)
    requires |rows| > 0 && h == |rows| - 1 && w == |rows[0]| - 1
    ensures Searches(Graph(mode, rows), mode, rows, h, w)
  {
    forall u, v ensures v in Graph(mode, rows)(u) <==> v in NeighborsOn(mode, h, w, u) && Enterable(rows, v) {
      GraphEdge(mode, rows, h, w, u, v);
    }
  }

  /** One edge of a search graph. */
  lemma SearchEdge(g: Pos -> seq<Pos>, mode: Mode, rows: seq<seq<Land>>, h: int, w: int, u: Pos, v: Pos)
    requires Searches(g, mode, rows, h, w)
    ensures v in g(u) <==> v in NeighborsOn(mode, h, w, u) && Enterable(rows, v)
  {
  }

  /** Taking more of a finite set leaves less of it. */
  lemma Shrinks<T>(c: set<T>, a: set<T>, b: set<T>)
    requires a <= b <= c && a != b
    ensures c - b < c - a
  {
    var x :| x in b && x !in a;
    assert x in c - a;
  }

  /** The positions of the visited matrix: rows `0..=h`, columns `0..=w`. */
  ghost function Cells(h: nat, w: nat): set<Pos> {
    set x, y | 0 <= x <= h && 0 <= y <= w :: Pos(x, y)
  }

  /** `p` is a position of the visited matrix. */
  predicate InCells(p: Pos, h: nat, w: nat) {
    0 <= p.x <= h && 0 <= p.y <= w
  }

  /** The visited positions all lie in the matrix. */
  lemma CellsContain(seen: set<Pos>, h: nat, w: nat)
    requires forall p :: p in seen ==> InCells(p, h, w)
    ensures seen <= Cells(h, w)
  {
    forall p | p in seen ensures p in Cells(h, w) {
      assert p == Pos(p.x, p.y);
    }
  }

  /** The visited matrix has `h + 1` rows of `w + 1` cells, and a cell is `true` exactly for a visited position. */
  ghost predicate Marks(rows: seq<seq<bool>>, seen: set<Pos>, h: nat, w: nat) {
    && |rows| == h + 1
    && (forall x :: 0 <= x <= h ==> |rows[x]| == w + 1)
    && (forall p :: p in seen ==> InCells(p, h, w))
    && (forall p: Pos {:trigger rows[p.x][p.y]} :: InCells(p, h, w) ==> (rows[p.x][p.y] <==> p in seen))
  }

  /** A fresh matrix of `false` marks nothing. */
  lemma MarksInit(h: nat, w: nat)
    ensures Marks(Filled(h + 1, w + 1, false), {}, h, w)
  {
    FilledSpec(h + 1, w + 1, false);
    FillSpec(w + 1, false);
  }

  /** Setting the cell of `p` to `true` marks `p` as well. */
  lemma MarkStep(rows: seq<seq<bool>>, seen: set<Pos>, h: nat, w: nat, p: Pos)
    requires Marks(rows, seen, h, w) && InCells(p, h, w)
    ensures Marks(rows[p.x := rows[p.x][p.y := true]], seen + {p}, h, w)
  {
    var rows' := rows[p.x := rows[p.x][p.y := true]];
    forall q: Pos | InCells(q, h, w) ensures rows'[q.x][q.y] <==> q in seen + {p} {
      assert rows[q.x][q.y] <==> q in seen;
    }
  }

  /** Every neighbour on the map is a position of the visited matrix. */
  lemma NeighborsInCells(mode: Mode, h: nat, w: nat, p: Pos)
    ensures forall v :: v in NeighborsOn(mode, h, w, p) ==> 1 <= v.x <= h && 1 <= v.y <= w
  {
    KeepInSpec(Shift(p, Dir(mode, p)), h, w);
  }

  /** Once every enterable neighbour of `u` is visited, so is every successor of `u` in the search graph. */
  lemma Covered(g: Pos -> seq<Pos>, mode: Mode, rows: seq<seq<Land>>, h: int, w: int, u: Pos, ns: seq<Pos>, seen: set<Pos>)
    requires Searches(g, mode, rows, h, w) && ns == NeighborsOn(mode, h, w, u)
    requires forall j :: 0 <= j < |ns| && Enterable(rows, ns[j]) ==> ns[j] in seen
    ensures forall v :: v in g(u) ==> v in seen
  {
    forall v | v in g(u) ensures v in seen {
      SearchEdge(g, mode, rows, h, w, u, v);
      var j :| 0 <= j < |ns| && ns[j] == v;
    }
  }

  /** Visiting neighbour `k` extends the enterable neighbours known visited by one. */
  lemma CoveredStep(rows: seq<seq<Land>>, ns: seq<Pos>, k: nat, before: set<Pos>, seen: set<Pos>)
    requires k < |ns| && before <= seen && (Enterable(rows, ns[k]) ==> ns[k] in seen)
    requires forall j :: 0 <= j < k && Enterable(rows, ns[j]) ==> ns[j] in before
    ensures forall j :: 0 <= j < k + 1 && Enterable(rows, ns[j]) ==> ns[j] in seen
  {
  }

  /**
   * Discovering `nxt`, an unmarked neighbour of `cur` that may be entered:
   * it is one step further than `cur`, so queueing it at `d` and marking it
   * keeps the search invariants, and if it is `to` then `d` is the distance.
   */
  lemma Discover(g: Pos -> seq<Pos>, mode: Mode, rows: seq<seq<Land>>, h: nat, w: nat, from: Pos,
                 seen: set<Pos>, done: set<Pos>, q: seq<(Pos, nat)>, level: nat, cur: Pos, nxt: Pos, d: nat,
                 marks: seq<seq<bool>>, to: Pos)
    requires Searches(g, mode, rows, h, w) && Frontier(g, from, seen, done, q, level) && Shortest(g, from, cur, level)
    requires Marks(marks, seen, h, w) && InCells(nxt, h, w) && !marks[nxt.x][nxt.y]
    requires nxt in NeighborsOn(mode, h, w, cur) && Enterable(rows, nxt) && d == level + 1
    requires to !in seen || to == from
    ensures nxt !in seen
    ensures Frontier(g, from, seen + {nxt}, done, q + [(nxt, d)], level)
    ensures Marks(marks[nxt.x := marks[nxt.x][nxt.y := true]], seen + {nxt}, h, w)
    ensures nxt == to ==> to != from && Distance(g, from, to) == Some(d)
    ensures nxt != to ==> to !in seen + {nxt} || to == from
  {
    SearchEdge(g, mode, rows, h, w, cur, nxt);
    FrontierPush(g, from, seen, done, q, level, cur, nxt, d);
    MarkStep(marks, seen, h, w, nxt);
    if nxt == to {
      DistanceIs(g, from, to, d);
    }
  }

  /**
   * One pass of the `for` loop of `aStar`: the neighbour `nxt` of `cur`,
   * popped at distance `len`, is marked and queued one step further if it is
   * not yet visited and may be entered, and answered at once if it is `to`.
   */
  method Visit(gm: Gm, vis: Matrix<bool>, ghost g: Pos -> seq<Pos>, ghost rows: seq<seq<Land>>, ghost from: Pos,
               cur: Pos, len: nat, ghost seen0: set<Pos>, q0: seq<(Pos, nat)>, ghost done: set<Pos>,
               ghost level: nat, h: nat, w: nat, to: Pos, nxt: Pos)
    returns (ghost seen: set<Pos>, q: seq<(Pos, nat)>, found: Option<nat>)
    requires Rectangular(gm.grid.rows) && h == gm.grid.Height() && w == gm.grid.Width()
    requires gm.grid.rows == rows && Searches(g, gm.mode, rows, h, w)
    requires Frontier(g, from, seen0, done, q0, level) && Shortest(g, from, cur, level) && len == level
    requires Marks(vis.rows, seen0, h, w) && (to !in seen0 || to == from)
    requires nxt in NeighborsOn(gm.mode, h, w, cur) && 1 <= nxt.x <= h && 1 <= nxt.y <= w
    modifies vis
    ensures gm.mode == old(gm.mode) && gm.grid == old(gm.grid) && gm.grid.rows == old(gm.grid.rows)
    ensures Marks(vis.rows, seen, h, w)
    ensures found.Some? ==> to != from && found == Distance(g, from, to)
    ensures found.None? ==> Frontier(g, from, seen, done, q, level) && (to !in seen || to == from)
    ensures found.None? ==> (Enterable(rows, nxt) ==> nxt in seen) && seen0 <= seen && (seen == seen0 ==> q == q0)
  {
    seen, q, found := seen0, q0, None;
    var marked := vis.Get(nxt);
    var land := gm.grid.Get(nxt).value;
    if marked != Some(true) && Accessible(land) && land.kind != CITY {
      assert !vis.rows[nxt.x][nxt.y] && Enterable(rows, nxt);
      var d := len + 1;
      Discover(g, gm.mode, rows, h, w, from, seen, done, q, level, cur, nxt, d, vis.rows, to);
      vis.Set(nxt, true);
      seen := seen + {nxt};
      q := q + [(nxt, d)];
      if nxt == to {
        found := Some(d);
      }
    }
  }

  /**
   * The `for` loop of `aStar` over the neighbours of `cur`, popped at
   * distance `len`, stopping at the first answer.
   */
  method Expand(gm: Gm, vis: Matrix<bool>, ghost g: Pos -> seq<Pos>, ghost rows: seq<seq<Land>>, ghost from: Pos,
                cur: Pos, len: nat, ghost seen0: set<Pos>, q0: seq<(Pos, nat)>, ghost done: set<Pos>,
                ghost level: nat, h: nat, w: nat, to: Pos)
    returns (ghost seen: set<Pos>, q: seq<(Pos, nat)>, found: Option<nat>)
    requires Rectangular(gm.grid.rows) && h == gm.grid.Height() && w == gm.grid.Width()
    requires gm.grid.rows == rows && Searches(g, gm.mode, rows, h, w)
    requires Frontier(g, from, seen0, done, q0, level) && Shortest(g, from, cur, level) && len == level
    requires Marks(vis.rows, seen0, h, w) && (to !in seen0 || to == from)
    modifies vis
    ensures gm.mode == old(gm.mode) && gm.grid == old(gm.grid) && gm.grid.rows == old(gm.grid.rows)
    ensures Marks(vis.rows, seen, h, w)
    ensures found.Some? ==> to != from && found == Distance(g, from, to)
    ensures found.None? ==> Frontier(g, from, seen, done, q, level) && (to !in seen || to == from)
    ensures found.None? ==> (forall v :: v in g(cur) ==> v in seen) && seen0 <= seen && (seen == seen0 ==> q == q0)
  {
    var ns := gm.Neighbors(cur);
    NeighborsInCells(gm.mode, h, w, cur);
    gm.NeighborsUnguarded(cur);
    assert ns == NeighborsOn(gm.mode, h, w, cur);
    seen, q := seen0, q0;
    ghost var grid, mode := gm.grid, gm.mode;
    var k := 0;
    while k < |ns|
      invariant gm.grid == grid && gm.mode == mode && grid.rows == rows
      invariant k <= |ns|
      invariant Frontier(g, from, seen, done, q, level)
      invariant Marks(vis.rows, seen, h, w)
      invariant to !in seen || to == from
      invariant forall j :: 0 <= j < k && Enterable(rows, ns[j]) ==> ns[j] in seen
      invariant seen0 <= seen && (seen == seen0 ==> q == q0)
    {
      assert ns[k] in ns;
      ghost var before := seen;
      seen, q, found := Visit(gm, vis, g, rows, from, cur, len, seen, q, done, level, h, w, to, ns[k]);
      if found.Some? {
        return;
      }
      CoveredStep(rows, ns, k, before, seen);
      k := k + 1;
    }
    Covered(g, mode, rows, h, w, cur, ns, seen);
    found := None;
  }

  /**
   * The start of `aStar`: the bounds of the map and a fresh visited matrix
   * in which only `from` is marked.
   */
  method Start(gm: Gm, from: Pos) returns (h: nat, w: nat, vis: Matrix<bool>)
    requires Rectangular(gm.grid.rows)
    requires 0 <= from.x < |gm.grid.rows| && 0 <= from.y < |gm.grid.rows[0]|
    ensures fresh(vis)
    ensures h == gm.grid.Height() && w == gm.grid.Width()
    ensures Searches(Graph(gm.mode, gm.grid.rows), gm.mode, gm.grid.rows, h, w)
    ensures Marks(vis.rows, {from}, h, w)
  {
    var h0, w0 := gm.grid.Height(), gm.grid.Width();
    ghost var rows := gm.grid.rows;
    assert h0 == |rows| - 1 && w0 == |rows[0]| - 1;
    h, w := h0, w0;
    GraphSearches(gm.mode, rows, h, w);
    ghost var blank := Filled(h + 1, w + 1, false);
    vis := Matrix.Default(h, w, false);
    assert vis.rows == blank;
    MarksInit(h, w);
    MarkStep(blank, {}, h, w, from);
    vis.Set(from, true);
    assert {} + {from} == {from};
  }

  /**
   * One round of the search loop of `aStar`: the head of the queue is
   * expanded; either the target is found at its distance, or the frontier
   * and the marks are kept and the search has made progress.
   */
  method Round(gm: Gm, vis: Matrix<bool>, ghost g: Pos -> seq<Pos>, ghost rows: seq<seq<Land>>, ghost from: Pos,
               ghost seen0: set<Pos>, q0: seq<(Pos, nat)>, ghost done0: set<Pos>, ghost level0: nat,
               h: nat, w: nat, to: Pos)
    returns (ghost seen: set<Pos>, q: seq<(Pos, nat)>, ghost done: set<Pos>, ghost level: nat, found: Option<nat>)
    requires Rectangular(gm.grid.rows) && h == gm.grid.Height() && w == gm.grid.Width()
    requires gm.grid.rows == rows && Searches(g, gm.mode, rows, h, w)
    requires Frontier(g, from, seen0, done0, q0, level0) && Closed(g, done0, seen0) && q0 != []
    requires Marks(vis.rows, seen0, h, w) && (to !in seen0 || to == from)
    modifies vis
    ensures gm.mode == old(gm.mode) && gm.grid == old(gm.grid) && gm.grid.rows == old(gm.grid.rows)
    ensures Marks(vis.rows, seen, h, w)
    ensures found.Some? ==> to != from && found == Distance(g, from, to)
    ensures found.None? ==> Frontier(g, from, seen, done, q, level) && Closed(g, done, seen)
    ensures found.None? ==> to !in seen || to == from
    ensures found.None? ==>
      Cells(h, w) - seen < Cells(h, w) - seen0 || (Cells(h, w) - seen == Cells(h, w) - seen0 && |q| < |q0|)
  {
    level := FrontierCatchUp(g, from, seen0, done0, q0, level0);
    var cur, len := q0[0].0, q0[0].1;
    FrontierPop(g, from, seen0, done0, q0, level);
    done := done0 + {cur};
    seen, q, found := Expand(gm, vis, g, rows, from, cur, len, seen0, q0[1..], done, level, h, w, to);
    if found.None? {
      ClosedExtend(g, done0, seen0, seen, cur);
      if seen != seen0 {
        CellsContain(seen, h, w);
        Shrinks(Cells(h, w), seen0, seen);
      }
    }
  }

  /**
   * `aStar`: the length of a shortest path from `from` to `to` whose
   * every step enters a position that is neither a mountain nor a city, or
   * `None` when there is none; since `from` is visited before the search
   * begins, it is never discovered, and `from == to` gives `None` too.
   */
  method AStar(gm: Gm, from: Pos, to: Pos) returns (r: Option<nat>)
    requires Rectangular(gm.grid.rows)
    requires 0 <= from.x < |gm.grid.rows| && 0 <= from.y < |gm.grid.rows[0]|
    ensures r == if from == to then None else Distance(Graph(gm.mode, gm.grid.rows), from, to)
  {
    var h, w, vis := Start(gm, from);
    ghost var rows := gm.grid.rows;
    ghost var mode := gm.mode;
    ghost var g := Graph(mode, rows);
    ghost var grid := gm.grid;
    var q: seq<(Pos, nat)> := [(from, 0)];
    ghost var seen: set<Pos> := {from};
    ghost var done: set<Pos> := {};
    ghost var level: nat := 0;
    FrontierInit(g, from);
    while q != []
      invariant fresh(vis)
      invariant gm.grid == grid && grid.rows == rows && gm.mode == mode
      invariant Frontier(g, from, seen, done, q, level) && Closed(g, done, seen)
      invariant Marks(vis.rows, seen, h, w)
      invariant to !in seen || to == from
      decreases Cells(h, w) - seen, |q|
    {
      var found;
      seen, q, done, level, found := Round(gm, vis, g, rows, from, seen, q, done, level, h, w, to);
      if found.Some? {
        return found;
      }
    }
    if from != to {
      FrontierExhausted(g, from, seen, done, level, to);
    }
    return None;
  }
}
