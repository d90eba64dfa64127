/**
 * The client's two-dimensional grid (app/game/gm/matrix.ts): an array of
 * rows whose row 0 and column 0 are padding, so that positions run from
 * [1, 1] to [height, width]. Reading a cell past the end of its row gives
 * `undefined`, written `None` here.
 */
module Matrices {
  import opened Wrappers

  /** `Pos`: row `x` and column `y`. */
  datatype Pos = Pos(x: int, y: int)

  /** A difference between two matrices: a position and the other matrix's value there. */
  datatype Patch<Item> = Patch(pos: Pos, item: Option<Item>)

  /** `n` copies of `v`. */
  function Fill<T>(n: nat, v: T): seq<T> {
    if n == 0 then [] else Fill(n - 1, v) + [v]
  }

  /** `n` rows of `c` copies of `v`. */
  function Filled<T>(n: nat, c: nat, v: T): seq<seq<T>> {
    if n == 0 then [] else Filled(n - 1, c, v) + [Fill(c, v)]
  }

  /** How many times a loop `for (k = 0; k <= bound; k++)` runs. */
  function Count(bound: int): nat {
    if bound >= 0 then bound + 1 else 0
  }

  /** The positions of row `i` with columns `1..=w`, left to right. */
  function RowPositions(i: int, w: int): seq<Pos>
    decreases w
  {
    if w < 1 then [] else RowPositions(i, w - 1) + [Pos(i, w)]
  }

  /** The positions of rows `1..=h` and columns `1..=w`, in row-major order. */
  function PositionsOf(h: int, w: int): seq<Pos>
    decreases h
  {
    if h < 1 then [] else PositionsOf(h - 1, w) + RowPositions(h, w)
  }

  /** `p` comes strictly before `q` in row-major order. */
  predicate Before(p: Pos, q: Pos) {
    p.x < q.x || (p.x == q.x && p.y < q.y)
  }

  /** Strictly ascending in row-major order, so every position appears once. */
  predicate RowMajor(ps: seq<Pos>) {
    forall k, l :: 0 <= k < l < |ps| ==> Before(ps[k], ps[l])
  }

  /** A row-major list holds no position twice. */
  lemma RowMajorDistinct(ps: seq<Pos>)
    requires RowMajor(ps)
    ensures forall k, l :: 0 <= k < |ps| && 0 <= l < |ps| && k != l ==> ps[k] != ps[l]
  {
    forall k, l | 0 <= k < |ps| && 0 <= l < |ps| && k != l
      ensures ps[k] != ps[l]
    {
      if k < l {
        assert Before(ps[k], ps[l]);
      } else {
        assert Before(ps[l], ps[k]);
      }
    }
  }

  class Matrix<Item(==)> {
    var rows: seq<seq<Item>>

    /** `Matrix.from`: a matrix holding the given rows. */
    constructor From(iterables: seq<seq<Item>>)
      ensures rows == iterables
    {
      rows := iterables;
    }

    /** `height`: one less than the number of rows. */
    function Height(): (r: int)
      reads this
      ensures r >= -1 && |rows| == r + 1
    {
      |rows| - 1
    }

    /** `width`: one less than the length of row 0, which must exist. */
    function Width(): (r: int)
      reads this
      requires |rows| > 0
      ensures r >= -1 && |rows[0]| == r + 1
    {
      |rows[0]| - 1
    }

    /**
     * `Matrix.defaultWith`: `height + 1` rows of `width + 1` values of `f`
     * each, pushed row by row and value by value.
     */
    static method DefaultWith(height: int, width: int, f: () -> Item) returns (m: Matrix<Item>)
      ensures fresh(m)
      ensures m.rows == Filled(Count(height), Count(width), f())
    {
      m := new Matrix.From([]);
      var i := 0;
      while i <= height
        invariant i <= Count(height)
        invariant m.rows == Filled(i, Count(width), f())
      {
        FilledSpec(i, Count(width), f());
        m.rows := m.rows + [[]];
        var j := 0;
        while j <= width
          invariant j <= Count(width) && |m.rows| == i + 1
          invariant m.rows == Filled(i, Count(width), f()) + [Fill(j, f())]
        {
          FillSnoc(j, j + 1, f());
          LastUpdate(Filled(i, Count(width), f()), Fill(j, f()), Fill(j + 1, f()));
          m.rows := m.rows[i := m.rows[i] + [f()]];
          j := j + 1;
        }
        FilledSnoc(i, i + 1, Count(width), f());
        i := i + 1;
      }
    }

    /** `Matrix.default`: `defaultWith` with a function that always gives `v`. */
    static method Default(height: int, width: int, v: Item) returns (m: Matrix<Item>)
      ensures fresh(m)
      ensures m.rows == Filled(Count(height), Count(width), v)
    {
      m := DefaultWith(height, width, () => v);
    }

    /** `get`: the value at `p`, or `None` past the end of its row; the row itself must exist. */
    function Get(p: Pos): (r: Option<Item>)
      reads this
      requires 0 <= p.x < |rows|
      ensures r.Some? <==> 0 <= p.y < |rows[p.x]|
      ensures r.Some? ==> r.value == rows[p.x][p.y]
    {
      if 0 <= p.y < |rows[p.x]| then Some(rows[p.x][p.y]) else None
    }

    /** `set`: the cell at `p` holds `item`, and every other cell is unchanged. */
    method Set(p: Pos, item: Item)
      requires 0 <= p.x < |rows| && 0 <= p.y < |rows[p.x]|
      modifies this
      ensures rows == old(rows)[p.x := old(rows)[p.x][p.y := item]]
      ensures Get(p) == Some(item)
      ensures forall q: Pos :: 0 <= q.x < |rows| && q != p ==> Get(q) == old(Get(q))
    {
      rows := rows[p.x := rows[p.x][p.y := item]];
    }

    /** `check`: `p` lies in rows `1..=height` and columns `1..=width`. */
    predicate Check(p: Pos)
      reads this
      ensures Check(p) ==> 1 <= p.x < |rows| && 1 <= p.y < |rows[0]|
    {
      p.x >= 1 && p.x <= Height() && p.y >= 1 && p.y <= Width()
    }

    /** What `positions` returns: the row-major positions, or none while `height < 1`. */
    function PositionList(): seq<Pos>
      reads this
    {
      if Height() >= 1 then PositionsOf(Height(), Width()) else []
    }

    /** `positions`: every position of the matrix, pushed row by row. */
    method Positions() returns (ans: seq<Pos>)
      ensures ans == PositionList()
      ensures forall p :: p in ans <==> Check(p)
      ensures RowMajor(ans)
    {
      ans := [];
      var i := 1;
      ghost var done := 0;
      while i <= Height()
        invariant done == i - 1 && 0 <= done
        invariant Height() >= 1 ==> done <= Height() && ans == PositionsOf(done, Width())
        invariant Height() < 1 ==> ans == []
      {
        ghost var row := ans;
        var j := 1;
        ghost var cols := 0;
        while j <= Width()
          invariant cols == j - 1 && 0 <= cols
          invariant j <= Width() + 1 || cols == 0
          invariant ans == row + RowPositions(i, cols)
        {
          RowPositionsSnoc(i, cols, j);
          ans := ans + [Pos(i, j)];
          cols := j;
          j := j + 1;
        }
        RowPositionsFull(i, cols, Width());
        PositionsOfSnoc(done, i, Width());
        done := i;
        i := i + 1;
      }
      assert Height() >= 1 ==> done == Height();
      PositionsChecked();
      PositionsOfOrder(Height(), if Height() >= 1 then Width() else 0);
    }

    /** `positions` lists exactly the positions that `check` accepts. */
    lemma PositionsChecked()
      ensures forall p :: p in PositionList() <==> Check(p)
    {
      if Height() >= 1 {
        PositionsOfMembers(Height(), Width());
      }
    }

    /** Every listed position names a row of the matrix. */
    lemma PositionsInRows()
      ensures forall p :: p in PositionList() ==> 0 <= p.x < |rows|
    {
      PositionsChecked();
    }

    /** The patches for the positions `ps`, in their order: one for each position at which the two values differ. */
    function DiffOf(ps: seq<Pos>, other: Matrix<Item>): seq<Patch<Item>>
      reads this, other
      requires forall p :: p in ps ==> 0 <= p.x < |rows| && p.x < |other.rows|
    {
      if ps == [] then []
      else
        var p := ps[|ps| - 1];
        DiffOf(ps[..|ps| - 1], other) + (if Get(p) != other.Get(p) then [Patch(p, other.Get(p))] else [])
    }

    /** `diff`: every row that `positions` visits must exist in `other`, or reading it throws. */
    predicate DiffDefined(other: Matrix<Item>)
      reads this, other
    {
      Height() < 1 || Width() < 1 || |rows| <= |other.rows|
    }

    /** `diff`: the patches at the positions of this matrix, in row-major order. */
    function Diff(other: Matrix<Item>): (r: seq<Patch<Item>>)
      reads this, other
      requires DiffDefined(other)
      ensures forall k :: 0 <= k < |r| ==> Check(r[k].pos) && r[k].item == other.Get(r[k].pos) && r[k].item != Get(r[k].pos)
    {
      PositionsChecked();
      DiffOfMembers(PositionList(), other);
      DiffOf(PositionList(), other)
    }

    /** A patch of the positions `ps` is one at a listed position where the values differ, with the other value; and each exists. */
    lemma {:induction false} DiffOfMembers(ps: seq<Pos>, other: Matrix<Item>)
      requires forall p :: p in ps ==> 0 <= p.x < |rows| && p.x < |other.rows|
      ensures forall pt :: pt in DiffOf(ps, other) <==> pt.pos in ps && Get(pt.pos) != other.Get(pt.pos) && pt.item == other.Get(pt.pos)
      ensures forall k :: 0 <= k < |DiffOf(ps, other)| ==>
        var pt := DiffOf(ps, other)[k]; pt.pos in ps && Get(pt.pos) != other.Get(pt.pos) && pt.item == other.Get(pt.pos)
    {
      if ps != [] {
        var init := ps[..|ps| - 1];
        DiffOfMembers(init, other);
        assert ps == init + [ps[|ps| - 1]];
      }
    }

    /** `diff(other)` holds a patch for exactly the checked positions whose values differ, carrying `other`'s value. */
    lemma DiffSpec(other: Matrix<Item>)
      requires DiffDefined(other)
      ensures forall pt :: pt in Diff(other) <==> Check(pt.pos) && Get(pt.pos) != other.Get(pt.pos) && pt.item == other.Get(pt.pos)
    {
      PositionsChecked();
      DiffOfMembers(PositionList(), other);
    }

    /** A matrix has no difference with itself. */
    lemma DiffSelf()
      ensures Diff(this) == []
    {
      PositionsChecked();
      DiffOfSelf(PositionList());
    }

    lemma {:induction false} DiffOfSelf(ps: seq<Pos>)
      requires forall p :: p in ps ==> 0 <= p.x < |rows|
      ensures DiffOf(ps, this) == []
    {
      if ps != [] {
        DiffOfSelf(ps[..|ps| - 1]);
      }
    }
  }

  lemma {:induction false} FillSnoc<T>(j: nat, k: nat, v: T)
    requires k == j + 1
    ensures Fill(j, v) + [v] == Fill(k, v)
  {
  }

  lemma {:induction false} FilledSnoc<T>(i: nat, k: nat, c: nat, v: T)
    requires k == i + 1
    ensures Filled(i, c, v) + [Fill(c, v)] == Filled(k, c, v)
  {
  }

  lemma LastUpdate<T>(s: seq<T>, x: T, y: T)
    ensures (s + [x])[|s| := y] == s + [y]
  {
    assert (s + [x])[|s| := y] == s + [y];
  }

  /** `Fill(n, v)` is `n` copies of `v`. */
  lemma {:induction false} FillSpec<T>(n: nat, v: T)
    ensures |Fill(n, v)| == n && forall k :: 0 <= k < n ==> Fill(n, v)[k] == v
  {
    if n > 0 {
      FillSpec(n - 1, v);
    }
  }

  /** `Filled(n, c, v)` has `n` rows of `c` copies of `v`. */
  lemma {:induction false} FilledSpec<T>(n: nat, c: nat, v: T)
    ensures |Filled(n, c, v)| == n
    ensures forall k :: 0 <= k < n ==> Filled(n, c, v)[k] == Fill(c, v)
  {
    if n > 0 {
      FilledSpec(n - 1, c, v);
    }
  }

  /** A matrix built by `defaultWith(h, w, f)` with `h >= 0` has height `h` and width `w` (or -1 for any negative `w`), every cell holding `f()`. */
  lemma DefaultDimensions<Item>(m: Matrix<Item>, height: int, width: int, v: Item)
    requires m.rows == Filled(Count(height), Count(width), v) && height >= 0
    ensures m.Height() == height
    ensures m.Width() == if width >= -1 then width else -1
    ensures forall p: Pos :: 1 <= p.x <= height && 0 <= p.y < Count(width) ==> m.Get(p) == Some(v)
  {
    FilledSpec(Count(height), Count(width), v);
    FillSpec(Count(width), v);
  }

  lemma {:induction false} RowPositionsSnoc(i: int, c: nat, j: int)
    requires j == c + 1
    ensures RowPositions(i, c) + [Pos(i, j)] == RowPositions(i, j)
  {
  }

  lemma RowPositionsFull(i: int, c: nat, w: int)
    requires c == w || (c == 0 && w < 1)
    ensures RowPositions(i, c) == RowPositions(i, w)
  {
  }

  lemma {:induction false} PositionsOfSnoc(d: nat, i: int, w: int)
    requires i == d + 1
    ensures PositionsOf(d, w) + RowPositions(i, w) == PositionsOf(i, w)
  {
  }

  /** Row `i` lists exactly the columns `1..=w`, once each and left to right. */
  lemma {:induction false} RowPositionsSpec(i: int, w: int)
    ensures forall p :: p in RowPositions(i, w) <==> p.x == i && 1 <= p.y <= w
    ensures RowMajor(RowPositions(i, w))
    ensures w >= 0 ==> |RowPositions(i, w)| == w
    decreases w
  {
    if w >= 1 {
      RowPositionsSpec(i, w - 1);
    }
  }

  /** The positions lie in rows `1..=h` and columns `1..=w`, and every such position is listed. */
  lemma {:induction false} PositionsOfMembers(h: int, w: int)
    ensures forall p :: p in PositionsOf(h, w) <==> 1 <= p.x <= h && 1 <= p.y <= w
    decreases h
  {
    if h >= 1 {
      PositionsOfMembers(h - 1, w);
      RowPositionsSpec(h, w);
    }
  }

  /** The positions come out once each, in row-major order. */
  lemma {:induction false} PositionsOfOrder(h: int, w: int)
    ensures RowMajor(PositionsOf(h, w))
    decreases h
  {
    if h >= 1 {
      ghost var g := h - 1;
      PositionsOfOrder(g, w);
      PositionsOfMembers(g, w);
      RowPositionsSpec(h, w);
      RowMajorConcat(PositionsOf(g, w), RowPositions(h, w));
    }
  }

  /** Two row-major lists, the first wholly before the second, make one. */
  lemma RowMajorConcat(a: seq<Pos>, b: seq<Pos>)
    requires RowMajor(a) && RowMajor(b)
    requires forall p, q :: p in a && q in b ==> Before(p, q)
    ensures RowMajor(a + b)
  {
    forall k, l | 0 <= k < l < |a + b| ensures Before((a + b)[k], (a + b)[l]) {
      if k >= |a| {
        assert (a + b)[k] == b[k - |a|] && (a + b)[l] == b[l - |a|];
      } else if l >= |a| {
        assert (a + b)[k] == a[k] && (a + b)[l] == b[l - |a|];
      } else {
        assert (a + b)[k] == a[k] && (a + b)[l] == a[l];
      }
    }
  }

  /** There are `h * w` positions. */
  lemma {:induction false} PositionsOfLength(h: nat, w: nat)
    ensures |PositionsOf(h, w)| == h * w
  {
    if h >= 1 {
      ghost var g: nat := h - 1;
      PositionsOfLength(g, w);
      PositionsOfSnoc(g, h, w);
      RowPositionsSpec(h, w);
      MulStep(g, h, w);
    }
  }

  lemma MulStep(g: nat, h: nat, w: nat)
    requires h == g + 1
    ensures h * w == g * w + w
  {
  }

  /** `check` on the 1 x 2 matrix of the tests: [1, 1] and [1, 2] inside, [1, 3], [0, 1], [2, 1] and [1, 0] outside. */
  lemma CheckExamples(m: Matrix<int>)
    requires m.rows == Filled(2, 3, 0)
    ensures m.Check(Pos(1, 1)) && m.Check(Pos(1, 2))
    ensures !m.Check(Pos(1, 3)) && !m.Check(Pos(0, 1)) && !m.Check(Pos(2, 1)) && !m.Check(Pos(1, 0))
  {
    FilledSpec(2, 3, 0);
    FillSpec(3, 0);
  }

  /** `positions` of the 1 x 2 matrix of the tests: [1, 1] then [1, 2]. */
  lemma PositionsExample()
    ensures PositionsOf(1, 2) == [Pos(1, 1), Pos(1, 2)]
  {
    assert RowPositions(1, 1) == [Pos(1, 1)];
    assert PositionsOf(0, 2) == [];
  }

  /** `Matrix.default(2, 1, 0)` of the tests: three rows `[0, 0]`. */
  lemma DefaultExample()
    ensures Filled(Count(2), Count(1), 0) == [[0, 0], [0, 0], [0, 0]]
  {
    assert Fill(2, 0) == [0, 0] by {
      assert Fill(1, 0) == [0];
    }
    assert Filled(1, 2, 0) == [[0, 0]];
    assert Filled(2, 2, 0) == [[0, 0], [0, 0]];
  }
}
