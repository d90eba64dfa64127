/** Linear indices and 2-D positions of the wasm map (wasm/src/pos.rs). `usize` is 32 bits wide on wasm32. */
module WasmPos {
  import opened Unsigned

  /** `Pos`, a `usizex2`: row and column, from [0, 0]. */
  datatype Pos = Pos(row: nat, col: nat)

  /** `Index::to_pos`: `[index / width, index % width]`; a zero width panics. */
  function ToPos(index: nat, width: nat): (p: Pos)
    requires width > 0
    ensures p.col < width && p.row * width + p.col == index
  {
    Pos(index / width, index % width)
  }

  /** `Pos::to_index`: `row * width + col`, with `usize` arithmetic wrapping as in a release build. */
  function ToIndex(p: Pos, width: nat): (r: nat)
    ensures r < USIZE_MOD
    ensures p.row * width + p.col < USIZE_MOD ==> r == p.row * width + p.col
  {
    (p.row * width + p.col) % USIZE_MOD
  }

  /** Division by a positive width has a unique quotient and remainder. */
  lemma DivModUnique(row: nat, col: nat, width: nat)
    requires col < width
    ensures (row * width + col) / width == row && (row * width + col) % width == col
  {
    var n := row * width + col;
    var k := n / width - row;
    assert k * width == col - n % width;
    MultipleBelowWidth(k, width);
  }

  /** `to_index(to_pos(i, w), w) == i` for every index that fits in a `usize`. */
  lemma IndexRoundTrip(index: nat, width: nat)
    requires width > 0 && index < USIZE_MOD
    ensures ToIndex(ToPos(index, width), width) == index
  {
  }

  /** `to_pos(to_index(p, w), w) == p` for every position inside the width whose index fits in a `usize`. */
  lemma PosRoundTrip(p: Pos, width: nat)
    requires p.col < width && p.row * width + p.col < USIZE_MOD
    ensures ToPos(ToIndex(p, width), width) == p
  {
    DivModUnique(p.row, p.col, width);
  }

  /** The examples of the documentation: index 4 in width 3 is [1, 1], and back. */
  lemma DocExamples()
    ensures ToPos(4, 3) == Pos(1, 1)
    ensures ToIndex(Pos(1, 1), 3) == 4
  {
  }
}
