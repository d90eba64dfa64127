# polygen core in Dafny

This project models the sequential core of polygen, a multiplayer strategy game on generated maps.
The Dafny model covers four groups of logic and proves properties of each:

- **The Rust map-generation pipeline.** Modules `Dir`, `Unsigned`, `Vec2`, `Types`, `ModelGm`, `Builder`, `Transformer`, `Extractor`, `DesignerRandom`, `DesignerPureRandom`, `Interpolate` and `Random`.
  - A block lattice is drawn: one random height per column, with layers filled down to the lowest neighbour.
  - The faces hidden by a neighbouring block, by the plane border or by the ground are culled.
  - The remaining faces become the lands of an undirected graph, linked to the faces they touch.
  - A designer places cities and crowns on distinct random lands, or draws every land at random.
  - Offsets and layer indices are `u32` values with wrap-around. `!1 + 1` stands for -1.
- **The wasm grid utilities.** Modules `WasmPos`, `WasmMap`, `WasmUtils`, `Bfs`, `WasmPatch` and `WasmView`.
  - Conversion between index and position.
  - Bounds- and type-checked neighbours, in hexagon and square mode.
  - Breadth-first distance, and a range check that stops early.
  - Map diffing and patch application.
  - Land masking.
- **The TypeScript game logic.** Modules `Matrices`, `ClientGm`, `ClientAStar`, `ServerMap`, `Teams`, `Battle`, `Room` and `Vote`.
  - The client's padded `Matrix` and its game map `Gm`, with per-mode direction tables.
  - The client generator's breadth-first search.
  - The server map and its fog of war.
  - A room's team bookkeeping, ready toggles, move resolution, army growth and win check.
  - The vote tally.
- **The input validators** (module `Validator`): the post, comment, page, username, password and captcha predicates, and `safeRedirect`.

Where the source changes state in place, the model does too:
- `GM.add_edge`, `Matrix.set`, the server `Map`, `Room` and `VoteManager` are classes with `modifies` clauses.
- The builder, the transformer, the extractor and the designers are methods with loops.
- The two breadth-first searches are `while` loops over a visited set and a FIFO queue.

Each of these methods is proved against a specification function, and the properties the source promises are proved about that function.

Randomness is an explicit nondeterministic choice (`Random.RandomRange`), so every proved property holds for every outcome of the generator. The f64 interpolation of the generator's configuration is modelled with exact reals, as bounded values.

A side face is linked to its own block's top and bottom, to the top of the stepped block one layer down and to the bottom of the stepped block one layer up (`crates/generator/src/extractor/basic.rs`, lines 55-77); no side face is linked to another side face.

## Model

| member | source | states |
|---|---|---|
| Dir.Sub1IsMinusOne | crates/algorithm/src/dir.rs:4 | `SUB1` is a `u32`, `SUB1 + 2` wraps to 1 and `SUB1 + 1` wraps to 0: it stands for -1 (the crate's `is_minus_1` test, lines 46-49) |
| Dir.Dir | crates/algorithm/src/dir.rs:14-21 | square mode gives exactly the four offsets of `SQUARE`, all `u32` values; every other mode is the `unimplemented!()` panic, an error |
| Dir.DirOffsetsAreUnitSteps | crates/algorithm/src/dir.rs:14 | the four offsets are (1,0), (0,1), (-1,0), (0,-1) read modulo 2^32 |
| Dir.DirIgnoresPosition | crates/algorithm/src/dir.rs:16 | the result does not depend on the position argument |
| Dir.NextBlock | crates/algorithm/src/dir.rs:27-39 | `Top` keeps the position and goes one layer up, `Bottom` one layer down (exact when no wrap occurs); `Side(d)` keeps the layer and wrapping-adds the d-th offset; it fails exactly when the mode is not square or `d >= 4` (the `unwrap` on `get(d)`) |
| Dir.NextBlockLayerWraps | crates/algorithm/src/dir.rs:32-33 | the layer steps are `y_index ± 1` modulo 2^32, as in a release build |
| Dir.OppositeSidesCancel | crates/algorithm/src/dir.rs:14-37 | stepping `Side(d)` and then `Side((d + 2) % 4)` returns to the starting block |
| Dir.OppositeOffsetsCancel | crates/algorithm/src/dir.rs:14 | opposite offsets of `SQUARE` wrapping-add to (0,0) |
| Dir.TopThenBottom | crates/algorithm/src/dir.rs:32-33 | stepping `Top` then `Bottom` returns to the starting block, even across the wrap |
| Unsigned.WrapAdd | crates/model/src/vec/vec2.rs:54 | `wrapping_add` of two values of an unsigned type stays in the type, and is the plain sum when that fits |
| Unsigned.WrapAddIsModular | crates/model/src/vec/vec2.rs:54 | `wrapping_add` is addition modulo 2^bits |
| Unsigned.WrapSub | crates/algorithm/src/dir.rs:33 | the release-build `y_index - 1` stays in `u32` and is undone by adding back |
| Unsigned.WrapSubIsModular | crates/algorithm/src/dir.rs:33 | that subtraction is subtraction modulo 2^32 |
| Unsigned.WrapAddCommutative | crates/model/src/vec/vec2.rs:54 | `wrapping_add` on one component is commutative |
| Unsigned.WrapAddAssociative | crates/model/src/vec/vec2.rs:54 | `wrapping_add` on one component is associative |
| Vec2.New | crates/model/src/vec/vec2.rs:28 | `new(x, y)` stores `x` and `y` unchanged |
| Vec2.Add | crates/model/src/vec/vec2.rs:31-35 | addition works component by component |
| Vec2.Sub | crates/model/src/vec/vec2.rs:37-41 | subtraction works component by component |
| Vec2.Mul | crates/model/src/vec/vec2.rs:43-47 | multiplication by a scalar works component by component |
| Vec2.AddSubInverse | crates/model/src/vec/vec2.rs:34-40 | `sub` undoes `add`, and `add` is commutative |
| Vec2.MulDistributesOverAdd | crates/model/src/vec/vec2.rs:34-46 | scaling distributes over `add` |
| Vec2.WrappingAdd | crates/model/src/vec/vec2.rs:49-61 | `wrapping_add` for the widths `u8` to `u128` stays in the width |
| Vec2.WrappingAddIsModular | crates/model/src/vec/vec2.rs:53-55 | each component of `wrapping_add` is the sum modulo 2^bits |
| Vec2.WrappingAddCommutative | crates/model/src/vec/vec2.rs:53-55 | `wrapping_add` is commutative |
| Vec2.WrappingAddAssociative | crates/model/src/vec/vec2.rs:53-55 | `wrapping_add` is associative |
| Vec2.WrappingAddU8Example | crates/model/src/vec/vec2.rs:67-72 | the crate's test: `(10, 20).wrapping_add((250, 245)) == (4, 9)` over `u8` |
| WasmPos.ToPos | wasm/src/pos.rs:28-30 | the position's column is below the width and `row * width + col` gives the index back (a zero width, a division panic, is excluded) |
| WasmPos.ToIndex | wasm/src/pos.rs:58-60 | the linear index is a `usize`, and equals `row * width + col` when that does not wrap |
| WasmPos.DivModUnique | wasm/src/pos.rs:29 | quotient and remainder by the width are unique |
| WasmPos.IndexRoundTrip | wasm/src/pos.rs:28-60 | `to_index(to_pos(i, w), w) == i` for every `usize` index and positive width |
| WasmPos.PosRoundTrip | wasm/src/pos.rs:28-60 | `to_pos(to_index(p, w), w) == p` when the column is below the width and the index fits in a `usize` |
| WasmPos.DocExamples | wasm/src/pos.rs:25-55 | the documentation examples: `4.to_pos(3) == [1, 1]` and `[1, 1].to_index(3) == 4` |
| WasmMap.DirFor | wasm/src/map_index.rs:43-48 | the hexagon tables have six offsets and the square one four |
| WasmMap.Dir | wasm/src/map_index.rs:64-77 | a hexagon map picks the even- or odd-column table by the parity of the index's column; a square map always gives the square table |
| WasmMap.AddPos | wasm/src/map_index.rs:85 | `pos + delta` on `usizex2` stays in `usize` in both components |
| WasmMap.Reached | wasm/src/map_index.rs:83-89 | the filtered neighbour list has at most one entry per offset, and each entry is a land of the map that is accessible |
| WasmMap.Neighbors | wasm/src/map_index.rs:80-90 | at most six neighbours on a hexagon map and four on a square one, each in bounds and accessible |
| WasmMap.WrapUnit | wasm/src/map_index.rs:41-86 | for one component, the wrapped sum passes the bound check exactly when the signed sum lies on the grid, and then the two agree |
| WasmMap.StepSpec | wasm/src/map_index.rs:53-86 | from a position on the map, the wrapped offset passes `check_pos` exactly when the signed offset stays on the grid, and reaches the same cell |
| WasmMap.ReachedContributes | wasm/src/map_index.rs:83-89 | the collected list holds exactly the cells that some offset, after the two filters, leads to |
| WasmMap.ContributesIsHit | wasm/src/map_index.rs:85-88 | for a unit offset from a cell on the map, the wrapped computation agrees with the signed reference definition of a neighbour |
| WasmMap.ReachedSpec | wasm/src/map_index.rs:83-89 | the collected list holds exactly the accessible cells one signed offset away |
| WasmMap.DirUnit | wasm/src/map_index.rs:43-48 | every component of every table offset is 0, 1 or `!0` |
| WasmMap.NeighborsSpec | wasm/src/map_index.rs:80-90 | `neighbors(i)` holds exactly the accessible lands at a signed offset of `dir(i)` from `i`'s position: a wrapped "negative" step never comes back on the far side |
| WasmMap.WrappedNegativeOutside | wasm/src/map_index.rs:53-55 | a position with a wrapped "negative" coordinate fails `check_pos` |
| WasmMap.Opposite | wasm/src/map_index.rs:41-48 | the opposite offset negates both signed components |
| WasmMap.OppositeInTable | wasm/src/map_index.rs:43-48 | every table offset has its opposite in the table of the column it leads to |
| WasmMap.IndexOnMap | wasm/src/map_index.rs:53-81 | an index below the size sits at a position that passes `check_pos` |
| WasmMap.HitPos | wasm/src/map_index.rs:85-87 | the land a neighbour step reaches is at the signed position |
| WasmMap.HitBack | wasm/src/map_index.rs:85-88 | from the cell a step reaches, the opposite offset reaches the cell it came from |
| WasmMap.OppositeInDir | wasm/src/map_index.rs:64-77 | the opposite of an offset of `i` is an offset of the land it leads to |
| WasmMap.NeighborsSymmetric | wasm/src/map_index.rs:80-90 | between accessible lands, being neighbours is symmetric |
| WasmUtils.Expand | wasm/src/map_utils.rs:30-34 | the inner loop keeps the search frontier invariant, leaves every admitted neighbour of `pos` visited, and queues nothing when it marks nothing |
| WasmUtils.Visit | wasm/src/map_utils.rs:31-33 | one neighbour: `vis.insert(next)` happens exactly when the land may be entered, and only a newly visited land is queued |
| WasmUtils.Advance | wasm/src/map_utils.rs:25-35 | popping the front pair and expanding it keeps the frontier invariant and counts that node as done |
| WasmUtils.SearchDist | wasm/src/map_utils.rs:19-37 | the queue loop returns the breadth-first distance: the length of a shortest path over admitted neighbours, or `None` when there is none |
| WasmUtils.SearchRange | wasm/src/map_utils.rs:53-75 | the loop answers whether the shortest distance lies in `lo..=hi`, stopping with `false` as soon as a popped distance exceeds `hi` |
| WasmUtils.NeighborsOf | wasm/src/map_index.rs:80-90 | every neighbour is an index of the map |
| WasmUtils.NbInDomain | wasm/src/map_utils.rs:30 | every node a search can visit lies in a finite domain, so the search ends |
| WasmUtils.Dist | wasm/src/map_utils.rs:18-38 | `dist` is the shortest path length over `neighbors` edges, not entering cities when `strict`, or `None` if `to` is unreachable |
| WasmUtils.RequireDist | wasm/src/map_utils.rs:46-76 | `require_dist` holds exactly when `dist` gives some `d` and the range contains `d` |
| WasmUtils.DistSelf | wasm/src/map_utils.rs:21-27 | `dist(a, a, _) == Some(0)` |
| WasmUtils.StrictAvoidsCities | wasm/src/map_utils.rs:31 | with `strict`, every node a search reaches besides its start is a land of the map that is not a city |
| Bfs.Keep | wasm/src/map_utils.rs:30-31 | a node is kept exactly when it is a neighbour that the search may enter |
| Bfs.AdmittedEdge | app/game/generator/aStar.ts:21-28 | an edge of the search graph is a neighbour edge into an enterable node, and every such edge is one |
| Bfs.ShortestUnique | wasm/src/map_utils.rs:18-38 | a node has at most one breadth-first distance |
| Bfs.ReachableHasDistance | wasm/src/map_utils.rs:18-38 | every node reachable within `k` steps has a distance of at most `k` |
| Bfs.PathWithin | wasm/src/map_utils.rs:18-38 | a walk of `n` steps ends within `n` steps of its start |
| Bfs.WithinPath | wasm/src/map_utils.rs:18-38 | every node within `k` steps ends a walk of at most `k` steps |
| Bfs.ShortestIsShortestPath | wasm/src/map_utils.rs:18-38 | the distance is a lower bound on the length of every walk to the node: it is the shortest path length |
| Bfs.ClosedContainsWithin | wasm/src/map_utils.rs:18-38 | a set closed under successors that holds the start holds everything reachable from it |
| Bfs.FrontierInit | wasm/src/map_utils.rs:19-23 | starting with only `from` visited and queued at distance 0 establishes the queue invariant |
| Bfs.FrontierCatchUp | wasm/src/map_utils.rs:25 | when the front pair is a level further on, the invariant holds at that level |
| Bfs.FrontierPop | wasm/src/map_utils.rs:25 | `pop_front` moves the front node from the queue to the expanded nodes, keeping the invariant |
| Bfs.FrontierPush | wasm/src/map_utils.rs:31-32 | queueing an unvisited successor of the node just popped, at `dist + 1`, gives it its exact distance and keeps the invariant |
| Bfs.FrontierExhausted | wasm/src/map_utils.rs:37 | once the queue is empty, no unvisited node is reachable, so `None` is right |
| Bfs.ClosedExtend | wasm/src/map_utils.rs:30-34 | after the `for` loop, the node just popped has all its successors visited |
| Bfs.Distance | wasm/src/map_utils.rs:18-38 | the reference distance: defined exactly for reachable nodes, and then the breadth-first distance |
| Bfs.DistanceIs | wasm/src/map_utils.rs:26-27 | a node exactly `d` steps away has distance `d` |
| Bfs.DistanceSelf | wasm/src/map_utils.rs:21-27 | every node is at distance 0 from itself |
| Bfs.FrontierLowerBound | wasm/src/map_utils.rs:64-66 | while the front of the queue is at some level, every node not yet expanded is at least that far away: a search may give up once that passes the range |
| Bfs.AdmittedWithin | wasm/src/map_utils.rs:31 | every node a search reaches besides its start passed the enterability filter |
| ClientAStar.GraphEdge | app/game/generator/aStar.ts:21-28 | an edge of the search graph goes to a neighbour that is accessible and not a city, and every such neighbour is one |
| ClientAStar.GraphSearches | app/game/generator/aStar.ts:21-28 | the graph the model searches is the graph the loop walks |
| ClientAStar.MarksInit | app/game/generator/aStar.ts:10 | the fresh `false` matrix marks no position |
| ClientAStar.MarkStep | app/game/generator/aStar.ts:14-30 | `vis.set(p, true)` marks exactly `p` in addition |
| ClientAStar.NeighborsInCells | app/game/generator/aStar.ts:21-23 | every neighbour is a cell of the visited matrix |
| ClientAStar.Covered | app/game/generator/aStar.ts:21-36 | once every enterable neighbour of `cur` is visited, so is every successor |
| ClientAStar.Discover | app/game/generator/aStar.ts:30-35 | a newly discovered neighbour is one step further than `cur`, so queueing and marking it keeps the invariants, and when it is `to` the returned `len + 1` is the distance |
| ClientAStar.Visit | app/game/generator/aStar.ts:22-35 | visited, inaccessible and city positions are skipped; otherwise the position is marked and queued at `len + 1`, and `to` is answered with its distance |
| ClientAStar.Expand | app/game/generator/aStar.ts:21-36 | the `for` loop leaves every successor of `cur` visited unless it answered, keeping the invariants |
| ClientAStar.Start | app/game/generator/aStar.ts:10-14 | the search starts on a fresh visited matrix of the map's size in which exactly `from` is marked |
| ClientAStar.Round | app/game/generator/aStar.ts:17-36 | one pass of the `while` loop either returns the distance to `to` or keeps the breadth-first frontier and the marks, and then either visits a new position or shortens the queue |
| ClientAStar.AStar | app/game/generator/aStar.ts:9-40 | the result is the length of a shortest path whose steps enter only accessible non-city positions, or `None` when there is none; `from` is visited before the search, so `from == to` gives `None` |
| ClientGm.JsRem | app/game/gm/gm.ts:90 | JavaScript's `%` agrees with the Euclidean remainder on non-negative dividends and always lies strictly between `-n` and `n` |
| ClientGm.Dir | app/game/gm/gm.ts:87-130 | `dir` gives six offsets for a hexagon map, four for a square one and three for a triangle one |
| ClientGm.Shift | app/game/gm/gm.ts:136-137 | the shifted list has one position per offset, the `k`-th being `p` moved by the `k`-th offset |
| ClientGm.DirSymmetric | app/game/gm/gm.ts:87-130 | in every mode, if `d` is an offset of `p` and `p + d` is a map position, then `-d` is an offset of `p + d` |
| ClientGm.HexagonSymmetric | app/game/gm/gm.ts:89-107 | the odd-column and even-column hexagon tables are mirror images: stepping by `d` and then by `-d` is allowed |
| ClientGm.TriangleSymmetric | app/game/gm/gm.ts:116-128 | the up- and down-pointing triangle tables are mirror images across an edge |
| ClientGm.TriangleDown | app/game/gm/gm.ts:116-128 | a triangle step one row down reaches a triangle that has the step back up among its offsets |
| ClientGm.TriangleUp | app/game/gm/gm.ts:116-128 | a triangle step one row up reaches a triangle that has the step back down among its offsets |
| ClientGm.NextParity | app/game/gm/gm.ts:90 | moving one column to the right flips the parity that `y % 2 === 1` tests |
| ClientGm.KeepInSpec | app/game/gm/gm.ts:136-138 | the `check` filter keeps exactly the listed positions that are in bounds, and never lengthens the list |
| ClientGm.KeepInNone | app/game/gm/gm.ts:136-138 | on a map with no rows to check nothing is kept |
| ClientGm.ShiftOffset | app/game/gm/gm.ts:136-137 | every shifted position is `p` moved by one of the offsets |
| ClientGm.ShiftHas | app/game/gm/gm.ts:136-137 | every offset yields a shifted position |
| ClientGm.NeighborsOnSymmetric | app/game/gm/gm.ts:135-139 | being neighbours is symmetric between in-bounds positions of an `h` by `w` map, in every mode |
| ClientGm.Gm.constructor | app/game/gm/gm.ts:36-39 | a new map has the given mode and holds the given lands |
| ClientGm.Gm.Empty | app/game/gm/gm.ts:51-53 | `Gm.empty` holds `height + 1` rows of `width + 1` default lands, in the given mode |
| ClientGm.Gm.CheckInBounds | app/game/gm/matrix.ts:95-97 | `check` accepts a position exactly when it lies in rows `1..=height` and columns `1..=width` |
| ClientGm.Gm.NeighborsUnguarded | app/game/gm/gm.ts:135-139 | `neighbors` is the bounds filter of the shifted offsets on any matrix with a row 0 |
| ClientGm.Gm.NeighborsSpec | app/game/gm/gm.ts:135-139 | a position is a neighbour of `p` exactly when `check` accepts it and it is `p` moved by one of `p`'s offsets; there are at most as many neighbours as offsets |
| ClientGm.Gm.NeighborsSymmetric | app/game/gm/gm.ts:135-139 | if `q` is a neighbour of a map position `p`, then `p` is a neighbour of `q` |
| ClientGm.Gm.Neighbors | app/game/gm/gm.ts:135-139 | `neighbors` yields at most one position per offset of `dir`, and `check` accepts each of them |
| ClientGm.SquareExample | legacy/app/game/gm/gm.test.ts:97-102 | the four neighbours of [2, 2] on a 3 by 3 square map, in offset order |
| ClientGm.SquareFilter | legacy/app/game/gm/gm.test.ts:97-102 | all four shifted positions of [2, 2] pass the bounds filter |
| ClientGm.HexagonExample | legacy/app/game/gm/gm.test.ts:65-71 | the five neighbours of [1, 2] on a 3 by 3 hexagon map, in offset order |
| ClientGm.HexagonFilter | legacy/app/game/gm/gm.test.ts:65-71 | of the six shifted positions of [1, 2], only [0, 2] is dropped by the bounds filter |
| ClientGm.TriangleExample | legacy/app/game/gm/gm.test.ts:118-122 | the three neighbours of [2, 2] on a 3 by 3 triangle map, in offset order |
| ClientGm.TriangleFilter | legacy/app/game/gm/gm.test.ts:118-122 | all three shifted positions of [2, 2] pass the bounds filter |
| Matrices.RowMajorDistinct | app/game/gm/matrix.ts:102-112 | positions in strictly ascending row-major order are pairwise distinct |
| Matrices.Matrix.From | app/game/gm/matrix.ts:40-42 | `Matrix.from` holds exactly the given rows |
| Matrices.Matrix.Height | app/game/gm/matrix.ts:19-21 | `height` is one less than the number of rows, so at least -1 |
| Matrices.Matrix.Width | app/game/gm/matrix.ts:26-28 | `width` is one less than the length of row 0, so at least -1 |
| Matrices.Matrix.Check | app/game/gm/matrix.ts:95-97 | a position `check` accepts names a row after row 0 and a column after column 0 of row 0 |
| Matrices.Matrix.DefaultWith | app/game/gm/matrix.ts:50-66 | the nested loops build `height + 1` rows of `width + 1` values of the function each (none for a negative bound) |
| Matrices.Matrix.Default | app/game/gm/matrix.ts:74-76 | `Matrix.default` builds the same shape as `defaultWith`, every cell holding the given value |
| Matrices.Matrix.Get | app/game/gm/matrix.ts:81-83 | `get` yields the cell at the position when the column exists in its row, and `undefined` (here `None`) otherwise |
| Matrices.Matrix.Set | app/game/gm/matrix.ts:88-90 | `set` changes the one cell at the position to the new item and leaves every other cell as it was |
| Matrices.Matrix.Positions | app/game/gm/matrix.ts:102-112 | `positions` lists exactly the positions `check` accepts, each once, in row-major order |
| Matrices.Matrix.PositionsChecked | app/game/gm/matrix.ts:95-112 | a position is listed by `positions` exactly when `check` accepts it |
| Matrices.Matrix.PositionsInRows | app/game/gm/matrix.ts:102-112 | every listed position names an existing row, so `get` on it is defined |
| Matrices.Matrix.DiffOfMembers | app/game/gm/matrix.ts:117-121 | a patch of the filtered positions is exactly one at a listed position whose two values differ, carrying the other matrix's value |
| Matrices.Matrix.DiffSpec | app/game/gm/matrix.ts:117-121 | `diff` holds a patch for exactly the checked positions whose values differ, carrying the other matrix's value |
| Matrices.Matrix.DiffSelf | app/game/gm/matrix.ts:117-121 | a matrix has no difference with itself |
| Matrices.Matrix.DiffOfSelf | app/game/gm/matrix.ts:117-121 | no listed position differs between a matrix and itself |
| Matrices.Matrix.Diff | app/game/gm/matrix.ts:117-121 | every patch of `diff` is at a checked position where the two matrices differ, and carries the other matrix's cell there |
| Matrices.FillSpec | app/game/gm/matrix.ts:60-62 | the inner loop yields `n` copies of the value |
| Matrices.FilledSpec | app/game/gm/matrix.ts:57-63 | the outer loop yields `n` rows, each the inner loop's row |
| Matrices.DefaultDimensions | app/game/gm/matrix.ts:19-28 | a default matrix of height `h >= 0` reports that height and its width (or -1 for a negative width), and every cell holds the fill value |
| Matrices.RowPositionsSpec | app/game/gm/matrix.ts:106-108 | the inner loop of `positions` lists exactly columns `1..=w` of its row, once each and left to right |
| Matrices.PositionsOfMembers | app/game/gm/matrix.ts:102-112 | the listed positions are exactly those in rows `1..=h` and columns `1..=w` |
| Matrices.PositionsOfOrder | app/game/gm/matrix.ts:102-112 | the positions come out in strictly ascending row-major order |
| Matrices.RowMajorConcat | app/game/gm/matrix.ts:105-109 | appending a later row to the earlier rows keeps the row-major order |
| Matrices.PositionsOfLength | app/game/gm/matrix.ts:102-112 | there are `h * w` positions |
| Matrices.CheckExamples | legacy/app/game/gm/matrix.test.ts:60-70 | on the 1 by 2 matrix of the tests, [1, 1] and [1, 2] are in and [1, 3], [0, 1], [2, 1] and [1, 0] are out |
| Matrices.PositionsExample | legacy/app/game/gm/matrix.test.ts:72-80 | the 1 by 2 matrix lists [1, 1] then [1, 2] |
| Matrices.DefaultExample | legacy/app/game/gm/matrix.test.ts:5-18 | `Matrix.default(2, 1, 0)` is three rows `[0, 0]` |
| ServerMap.InBoundsHas | app/core/server/game/map.ts:29-35 | every position the 1-based bounds test accepts names a cell of the grid the constructor builds |
| ServerMap.Dir | app/core/server/game/map.ts:55-61 | `dir` always gives six offsets |
| ServerMap.DirAgrees | app/core/server/game/map.ts:55-61 | the server's offset tables are the client's hexagon tables, chosen by the same column parity |
| ServerMap.NeighboursOn | app/core/server/game/map.ts:63-67 | `neighbours` lists at most six positions, and a position is listed exactly when it is in bounds and is `p` moved by one of its offsets |
| ServerMap.NeighboursSymmetric | app/core/server/game/map.ts:63-67 | being neighbours is symmetric between cells of the map |
| ServerMap.SomeOwnedSpec | app/core/server/game/map.ts:92 | `neighbours(pos).some(ownedByTeam)` holds exactly when one of the neighbours is owned by the team |
| ServerMap.Hide | app/core/server/game/map.ts:93-102 | a hidden mountain shows as an unknown mountain, a hidden city as an unknown city, anything else as unknown, with colour and amount 0 |
| ServerMap.MaskInit | app/core/server/game/map.ts:86-88 | before the loops nothing is masked: the export equals the map |
| ServerMap.MaskStep | app/core/server/game/map.ts:89-103 | one inner iteration masks cell `(i, j)` when it is hidden and leaves it otherwise, moving the frontier one column on |
| ServerMap.MaskRow | app/core/server/game/map.ts:88-105 | finishing a row moves the frontier to the start of the next row |
| ServerMap.MaskDone | app/core/server/game/map.ts:88-107 | after the last row every cell of the result is the masked cell |
| ServerMap.HiddenSpec | app/core/server/game/map.ts:91-92 | a cell is hidden exactly when `myColor` is not 0 and neither the cell nor any of its neighbours is owned by `myColor`'s team |
| ServerMap.SpectatorSeesAll | app/core/server/game/map.ts:91 | a spectator, colour 0, sees every cell unchanged |
| ServerMap.OwnedSurroundingsVisible | app/core/server/game/map.ts:91-92 | a team's own cells and every cell next to one of them are shown unchanged |
| ServerMap.Map.constructor | app/core/server/game/map.ts:23-36 | a new map has the given width and height and `height + 1` rows of `width + 1` default lands |
| ServerMap.Map.Get | app/core/server/game/map.ts:38-40 | `get([i, j])` is the cell stored in row `i` at column `j` |
| ServerMap.Map.Check | app/core/server/game/map.ts:46-48 | `check` accepts exactly the positions with `1 <= i <= height` and `1 <= j <= width`; on a well-formed map each of them names a stored cell |
| ServerMap.Map.Accessible | app/core/server/game/map.ts:50-53 | a cell is accessible exactly when its type is land, general, city, unknown or unknown city: every type except the two mountains |
| ServerMap.Map.Neighbours | app/core/server/game/map.ts:63-67 | `neighbours` lists at most six positions, and a position is listed exactly when `check` accepts it and it is one `dir` offset away; on a well-formed map each names a stored cell |
| ServerMap.Map.OwnedByTeam | app/core/server/game/map.ts:80-83 | `ownedByTeam` holds exactly when the cell's colour is on the same team as `myColor`, or when neither colour has a team and both lookups are undefined |
| ServerMap.Map.Export | app/core/server/game/map.ts:69-72 | `export` keeps the width, the height and every cell; on a well-formed map the result has `height + 1` rows of `width + 1` cells |
| ServerMap.Map.Set | app/core/server/game/map.ts:42-44 | after `set`, `get` at the position yields the new land, every other stored cell is unchanged and the dimensions stay as they were |
| ServerMap.Map.Mask | app/core/server/game/map.ts:85-108 | `mask` returns the map's dimensions and, at every cell, the cell masked for `myColor`: hidden cells disguised, others as exported |
| ModelGm.AddedEdge | crates/model/src/gm/mod.rs:38-46 | after `add_edge(u, v)` each endpoint lists the other, every other land keeps its list, and no list loses an entry |
| ModelGm.AddedEdgeRelation | crates/model/src/gm/mod.rs:38-48 | `add_edge(u, v)` adds exactly the pairs `(u, v)` and `(v, u)` to the `has_edge` relation |
| ModelGm.AddedEdgeWellFormed | crates/model/src/gm/mod.rs:38-48 | `add_edge` keeps every endpoint a land id, every list free of repeats and the relation symmetric |
| ModelGm.AddedEdgeIdempotent | crates/model/src/gm/mod.rs:38-46 | calling `add_edge(u, v)` a second time changes nothing |
| ModelGm.GM.constructor | crates/model/src/gm/mod.rs:31-36 | `GM::new(size)` has `size` default lands, each with an empty neighbour list |
| ModelGm.GM.AddEdge | crates/model/src/gm/mod.rs:38-46 | the method updates the adjacency lists as `AddedEdge` says, leaves the lands alone and keeps the map well formed |
| ModelGm.GM.HasEdge | crates/model/src/gm/mod.rs:48 | `has_edge(u, v)` holds exactly when `v` is on `u`'s adjacency list; on a well-formed map `v` is then a land whose list holds `u` |
| ModelGm.GM.Size | crates/model/src/gm/mod.rs:51 | `size()` is the number of lands and, on a well-formed map, the number of adjacency lists |
| ModelGm.GM.LandFields | crates/model/src/gm/mod.rs:53-57 | the accessors `type`, `color` and `amount` read back exactly the three fields of the stored land |
| ModelGm.GM.Neighbors | crates/model/src/gm/mod.rs:59 | `neighbors(id)` lists exactly the lands `has_edge(id, _)` accepts; on a well-formed map it has no duplicates and every listed land is a land linked back to `id` |
| Builder.RealProduct | crates/generator/src/builder/basic.rs:30-31 | the `f64` product of a plane size per player and a `u8` player count is exact, so the cast back loses nothing |
| Builder.PlaneSide | crates/generator/src/builder/basic.rs:30-31 | one side of the plane is the interpolated size per player times the player count, and fits a `u32` |
| Builder.PlaneSize | crates/generator/src/builder/basic.rs:28-33 | `get_plane_size` scales the interpolated width and height ratios by the player count |
| Builder.PlaneSizeBounds | crates/generator/src/builder/basic.rs:19-33 | each side of the plane lies between 2 and 10 cells per player |
| Builder.GenY | crates/generator/src/builder/basic.rs:23-26 | `gen_y` draws a layer in `1..=max_y_index`, which is at most 5 |
| Builder.Lookup | crates/generator/src/builder/basic.rs:60 | the checked lookup yields the table entry exactly when both indices are in range |
| Builder.NeighborHeights | crates/generator/src/builder/basic.rs:56-61 | at most one height per offset survives the `filter_map` |
| Builder.NeighborHeightsMembers | crates/generator/src/builder/basic.rs:56-61 | a height is listed exactly when some wrapped offset of `pos` leads to an existing cell of that height |
| Builder.MinOr | crates/generator/src/builder/basic.rs:62-64 | `.min().unwrap_or(d)` is `d` on no heights and otherwise a listed height no larger than any other |
| Builder.Layers | crates/generator/src/builder/basic.rs:67 | the range `lo..=hi` has `hi - lo + 1` layers, none when `lo > hi` |
| Builder.DrawTable | crates/generator/src/builder/basic.rs:42-50 | the first pass gives every cell of rows `1..=width`, columns `1..=height` a height in `1..=max_y_index` and keeps 99 on row 0 and column 0 |
| Builder.EmitColumn | crates/generator/src/builder/basic.rs:53-68 | one inner iteration appends the column's layers from its floor to its height; a mode other than square is an error |
| Builder.EmitRow | crates/generator/src/builder/basic.rs:53-69 | one outer iteration appends the columns of row `i` in order; it fails exactly when a column is visited in a mode other than square |
| Builder.RowBlocksAppend | crates/generator/src/builder/basic.rs:53-69 | appending column `j` to columns `1..j-1` gives columns `1..=j` |
| Builder.EmitBlocks | crates/generator/src/builder/basic.rs:52-70 | the second pass emits every column's layers row by row, failing exactly when a column is visited in a mode other than square |
| Builder.GridBlocksAppend | crates/generator/src/builder/basic.rs:52-70 | appending row `i` to rows `1..i-1` gives rows `1..=i` |
| Builder.Build | crates/generator/src/builder/basic.rs:37-73 | `build` draws a height table meeting the first-pass bounds and returns exactly its emitted blocks with the plane's width and height (an error for a non-square mode with a non-empty plane) |
| Builder.SortedConcat | crates/generator/src/builder/basic.rs:52-70 | two ordered block lists, the first wholly before the second, make one ordered list |
| Builder.ColumnSpec | crates/generator/src/builder/basic.rs:66-68 | a column holds exactly its layers from the floor to its height, bottom up |
| Builder.RowBlocksSpec | crates/generator/src/builder/basic.rs:53-69 | the blocks of row `i`, columns `1..=j`, are exactly the emitted blocks there, in order |
| Builder.GridBlocksSpec | crates/generator/src/builder/basic.rs:52-70 | the blocks of rows `1..=i` are exactly the emitted blocks there, in order |
| Builder.FloorBounds | crates/generator/src/builder/basic.rs:54-67 | a column's floor is at least 1, at most its own height and at most every neighbouring height in the table |
| Builder.BuildBlocksExact | crates/generator/src/builder/basic.rs:52-72 | the returned blocks are exactly the emitted ones, each once, in (x, y, layer) order |
| Builder.BuildLayersBounded | crates/generator/src/builder/basic.rs:42-70 | every emitted layer lies in `1..=max_y_index` and fits the block's `u32` fields |
| Builder.BuildTopsEmitted | crates/generator/src/builder/basic.rs:46-70 | the top block of every column of the plane is emitted |
| Builder.BuildFloorsCovered | crates/generator/src/builder/basic.rs:54-68 | each column reaches down to the lowest neighbouring height, so no side face looks into a gap |
| Builder.EmptyPlane | crates/generator/src/builder/basic.rs:46-70 | a plane with no rows or no columns has no blocks |
| Transformer.CandidateDirs | crates/generator/src/transformer/basic.rs:29 | the faces tried are `Side(0)` .. `Side(sides - 1)` in order and then `Top` |
| Transformer.ExposedFaces | crates/generator/src/transformer/basic.rs:28-53 | the faces of one block that survive the filter, in candidate order; a mode without a direction table is an error |
| Transformer.Transform | crates/generator/src/transformer/basic.rs:20-57 | `transform` returns, block by block, every candidate face that survives the filter, and fails exactly when a block is visited in a mode other than square |
| Transformer.SquareCandidates | crates/generator/src/transformer/basic.rs:29 | the square candidates are exactly the four sides and the top, each once |
| Transformer.ExposedSpec | crates/generator/src/transformer/basic.rs:29-51 | a face of the block is kept exactly when it is a candidate passing both filters, and distinct candidates give distinct faces |
| Transformer.PlanesSpec | crates/generator/src/transformer/basic.rs:27-54 | the planes of the first `k` blocks are exactly the visible faces of those blocks, and distinct blocks give distinct planes |
| Transformer.TransformSpec | crates/generator/src/transformer/basic.rs:20-57 | every output plane is a face of an input block, never a bottom, never facing another block, and no side is on layer 1; every such face is present; distinct blocks give distinct planes |
| Transformer.FlatPlaneHasOnlyTops | crates/generator/src/transformer/basic.rs:40-48 | when every block sits on layer 1, each block shows exactly its top face and nothing else: one top plane per block, in block order |
| Extractor.PlaneIds | crates/generator/src/extractor/basic.rs:25-26 | every id in `plane_to_id` is an index of the plane list |
| Extractor.PlaneIdsSpec | crates/generator/src/extractor/basic.rs:25-26 | every listed plane has an id, its id indexes it, and no later index holds the same plane (collecting keeps the last) |
| Extractor.NotOwnCandidate | crates/generator/src/extractor/basic.rs:32-78 | no plane is among its own candidate neighbours |
| Extractor.NeighbourDiffers | crates/generator/src/extractor/basic.rs:43 | a square step always leads to another column, even with `u32` wrap-around |
| Extractor.AddCandidates | crates/generator/src/extractor/basic.rs:52-53 | linking keeps the number of lands |
| Extractor.LinkCandidates | crates/generator/src/extractor/basic.rs:52-53 | the inner `for_each` calls `add_edge(from, id)` for every candidate that has an id, in order, keeping the map well formed |
| Extractor.LinkPlane | crates/generator/src/extractor/basic.rs:28-78 | one round of the outer loop links plane `from` with its candidates |
| Extractor.LinkPlanes | crates/generator/src/extractor/basic.rs:28-81 | the outer loop succeeds exactly when every plane is a top or a square side, and then links every plane with its candidates |
| Extractor.Extract | crates/generator/src/extractor/basic.rs:21-84 | `extract` makes one default land per plane and the candidate edges, and stops on a bottom plane or a mode other than square |
| Extractor.AddCandidatesRelation | crates/generator/src/extractor/basic.rs:52-53 | linking `from` with a candidate list adds exactly the pairs between `from` and the ids of the listed candidates |
| Extractor.LinkedRowsRelation | crates/generator/src/extractor/basic.rs:28-81 | after the first `k` rounds two lands are linked exactly when one of them is below `k` and has a candidate with the other's id |
| Extractor.ExtractedRelation | crates/generator/src/extractor/basic.rs:28-81 | after the first `k` planes two lands are linked exactly when one of them is below `k` and touches the other |
| Extractor.NoSelfLoops | crates/generator/src/extractor/basic.rs:28-81 | no land is its own neighbour |
| Extractor.ExtractedGraph | crates/generator/src/extractor/basic.rs:21-84 | for distinct planes, two lands are neighbours exactly when one plane is a candidate of the other |
| Extractor.TouchesDistinct | crates/generator/src/extractor/basic.rs:25-26 | with distinct planes, plane `i` reaches land `j` exactly when plane `j` is a candidate of plane `i` |
| DesignerRandom.ScaleBound | crates/generator/src/designer/random.rs:25 | scaling by the land count keeps a density of at most 0.125 at most an eighth of that count |
| DesignerRandom.CityCount | crates/generator/src/designer/random.rs:21-26 | `get_city_cnt` is the interpolated density times the land count, truncated; it is at most an eighth of the lands and 0 for a zero ratio |
| DesignerRandom.Draft | crates/generator/src/designer/random.rs:30-47 | `draft` pops `city_cnt` distinct ids as cities with 40 to 50 troops and then one id per player as that player's crown with one troop; every other land and the edges are unchanged |
| DesignerRandom.PopCities | crates/generator/src/designer/random.rs:35-39 | the first loop pops the last `city_cnt` shuffled ids, from the back, and makes each a city |
| DesignerRandom.PopCrowns | crates/generator/src/designer/random.rs:41-46 | the second loop pops the next id for each colour `1..=player_count` and makes it that player's crown |
| DesignerRandom.DraftFromDefault | crates/generator/src/designer/random.rs:30-47 | on default lands, the cities are exactly the popped city ids, the crowns exactly the popped crown ids, and no land is both |
| DesignerRandom.CrownPerPlayer | crates/generator/src/designer/random.rs:41-46 | every player owns exactly one crown, coloured with the player's colour and holding one troop |
| DesignerPureRandom.Pow10 | crates/generator/src/designer/pure_random.rs:21 | `10u32.pow(k)` is at least 1 |
| DesignerPureRandom.Pow10Monotone | crates/generator/src/designer/pure_random.rs:21 | `10^k` grows with `k` |
| DesignerPureRandom.Pow10Bound | crates/generator/src/designer/pure_random.rs:21 | the largest exponent drawn, 8, gives at most `10^8` |
| DesignerPureRandom.DigitProduct | crates/generator/src/designer/pure_random.rs:21 | a drawn digit in `1..=9` times a power of ten is one of the nine multiples of that power |
| DesignerPureRandom.OneDigitAmountBound | crates/generator/src/designer/pure_random.rs:21 | every amount `design` can draw lies in `1..=9 * 10^8`, below `u32::MAX`, so the product never overflows |
| DesignerPureRandom.DrawAmount | crates/generator/src/designer/pure_random.rs:21 | one draw yields a one-significant-digit amount that fits a `u32` |
| DesignerPureRandom.Design | crates/generator/src/designer/pure_random.rs:19-30 | `design` gives every land such an amount, a colour in `0..=player_count` and an empty, crown or city type, and leaves the edges and the land count alone |
| Interpolate.SaturatingU32 | crates/generator/src/lib.rs:40 | Rust's `as` cast from `f64` truncates toward zero within range and saturates into `0..u32::MAX` |
| Interpolate.InterpolateU32 | crates/generator/src/lib.rs:37-43 | `interpolate!` maps a ratio in `[0, 1]` into `[min, max]`, hitting `min` at 0 and `max` at 1 |
| Interpolate.MaxYIndex | crates/generator/src/builder/basic.rs:20 | `max_y_index` lies in `1..=5` |
| Interpolate.PlaneSizePerSqrtPlayer | crates/generator/src/builder/basic.rs:19 | `plane_size_per_sqrt_player` lies in `2..=10` |
| Interpolate.CityDensity | crates/generator/src/designer/random.rs:21 | `city_density` lies in `[0, 0.125]` |
| Random.RandomRange | crates/generator/src/builder/basic.rs:25 | `random_range(lo..=hi)` yields a value in `lo..=hi` |
| Random.Shuffle | crates/generator/src/designer/random.rs:33 | `shuffle` leaves a permutation of the slice |
| Seqs.DistinctConcat | crates/generator/src/builder/basic.rs:66-68 | two repeat-free lists with nothing in common concatenate to a repeat-free list |
| Seqs.DistinctPrefixLast | crates/generator/src/extractor/basic.rs:25-26 | in a repeat-free list no element occurs before its own position |
| Seqs.Iota | crates/generator/src/designer/random.rs:32 | `(0..n).collect()` has `n` entries, the `i`-th being `i` |
| Seqs.IotaCounts | crates/generator/src/designer/random.rs:32 | every id below `n` occurs once in `0..n`, and no other value occurs |
| Seqs.PermutationOfIota | crates/generator/src/designer/random.rs:32-33 | a shuffle of `0..n` holds every id below `n` exactly once and nothing else |
| Types.Sides | crates/model/src/types.rs:44-50 | `sides()` is 4 for square mode, and 3 to 6 in every mode |
| WasmPatch.Diff | wasm/src/map_patch.rs:100-114 | every patch of `diff` has an index of the zipped lands |
| WasmPatch.DiffPrefixMembers | wasm/src/map_patch.rs:103-113 | a patch of the first `n` zipped pairs is one at a differing index below `n` with the other map's land, and each exists |
| WasmPatch.DiffPrefixAscending | wasm/src/map_patch.rs:103-113 | the patches of the first `n` pairs have strictly ascending indices below `n` |
| WasmPatch.DiffSpec | wasm/src/map_patch.rs:100-114 | a patch exists for index `i` exactly when the lands at `i` differ, and it carries the other map's land |
| WasmPatch.DiffAscending | wasm/src/map_patch.rs:100-114 | patches come out in strictly ascending index order |
| WasmPatch.DiffSelf | wasm/src/map_patch.rs:100-114 | a map has no patch against itself |
| WasmPatch.DiffPrefixSelf | wasm/src/map_patch.rs:106-112 | no pair of equal lands gives a patch |
| WasmPatch.Apply | wasm/src/map_patch.rs:11-17 | applying patches overwrites lands at their indices and never changes the number of lands |
| WasmPatch.DiffPrefixSnoc | wasm/src/map_patch.rs:103-113 | one more zipped pair adds at most its own patch |
| WasmPatch.ApplySnoc | wasm/src/map_patch.rs:11-17 | applying one more patch first applies the earlier ones, then overwrites one land |
| WasmPatch.SpliceStep | wasm/src/map_patch.rs:106-112 | writing the other map's land at index `m` moves the boundary between the two maps one index on |
| WasmPatch.ApplyDiffPrefix | wasm/src/map_patch.rs:100-114 | applying the patches of the first `n` pairs turns the first `n` lands into the other map's |
| WasmPatch.ApplyDiff | wasm/src/map_patch.rs:100-114 | applying `a.diff(&b)` to `a`'s lands yields `b`'s lands |
| WasmPatch.DocExample | wasm/src/map_patch.rs:81-99 | the two documented 2 by 2 maps differ by two patches, at indices 1 and 3 |
| WasmView.Mask | wasm/src/map_view.rs:52-57 | `mask` shows a mountain or a city as an obstacle and anything else as fog, with colour and amount 0 |
| WasmView.MaskAssign | wasm/src/map_view.rs:42-47 | `mask_assign` replaces the land by its mask and touches nothing else |
| WasmView.MaskTwice | wasm/src/map_view.rs:52-57 | masking a masked land gives plain fog |
| WasmView.MaskHidesOwner | wasm/src/map_view.rs:52-57 | the mask depends on the land's type alone, hiding its owner and amount |
| WasmView.DocExample | wasm/src/map_view.rs:18-25 | a city of colour 1 holding 2 masks to an empty obstacle |
| Validator.Units | app/validator.server.ts:2 | a character is one UTF-16 code unit inside the Basic Multilingual Plane and a surrogate pair outside it |
| Validator.LengthBounds | app/validator.server.ts:2 | a string's `length` lies between its character count and twice that, and equals the count when no character needs a surrogate pair |
| Validator.TrimStart | app/validator.server.ts:2 | what is left is a suffix of the input, everything removed is white space, and it does not start with white space |
| Validator.TrimEnd | app/validator.server.ts:2 | trimming the end leaves nothing exactly when the string is all white space |
| Validator.TrimNonEmpty | app/validator.server.ts:2 | `trim()` leaves something exactly when some character is not white space |
| Validator.SpaceSplit | app/validator.server.ts:2 | after a white-space prefix, the rest is all white space exactly when the whole string is |
| Validator.ValidatePostContent | app/validator.server.ts:1-3 | a post is accepted exactly when it is a string with a non-white-space character and fewer than 100000 code units |
| Validator.ValidatePage | app/validator.server.ts:5-7 | a page is accepted exactly when it is a number above 0; a string never is |
| Validator.ValidateCommentContent | app/validator.server.ts:9-11 | a comment is accepted exactly when it is a string with a non-white-space character and fewer than 10000 code units |
| Validator.NameUnits | app/validator.server.ts:14 | every code unit matches the character class exactly when every character is a CJK ideograph in U+4E00..U+9FA5, `_`, an ASCII letter or a digit |
| Validator.UsernameSpec | app/validator.server.ts:13-15 | a username is accepted exactly when it is a string of 3 to 16 characters, each a name character |
| Validator.ValidatePassword | app/validator.server.ts:17-19 | a string of at least 6 characters is accepted, and an accepted password is a string of at least 3 characters |
| Validator.ValidateCaptcha | app/validator.server.ts:21-23 | an accepted captcha is a string of 2 to 4 characters, and 4 characters of the Basic Multilingual Plane are accepted |
| Validator.SafeRedirect | app/validator.server.ts:27-37 | the target is returned exactly when it is a string starting with `/` but not `//`; anything else gives the default |
| Validator.SafeRedirectIdempotent | app/validator.server.ts:27-37 | redirecting the result again gives the same result |
| Validator.SafeRedirectLocal | app/validator.server.ts:25-37 | with the default `/` the result is always a path on this site |
| Validator.SafeRedirectExamples | app/validator.server.ts:27-37 | an absolute URL and a protocol-relative URL give the default, a path is kept, and a non-string gives the default |
| Teams.Find | app/core/server/room.ts:111 | the first entry with the key, or the end when no entry has it |
| Teams.Get | app/core/server/room.ts:144 | `Map.get` finds a value exactly when some entry has the key, and it is that entry's players |
| Teams.Put | app/core/server/room.ts:93-95 | `Map.set` on a present key replaces that entry in place; a new key is appended |
| Teams.Delete | app/core/server/room.ts:126 | `Map.delete` removes the entry with the key and keeps the others in order; a missing key changes nothing |
| Teams.PoolAppend | app/core/server/room.ts:103-105 | appending a team adds its players to the pool of all members |
| Teams.PoolUpdate | app/core/server/room.ts:124 | replacing one team's players swaps them in the pool |
| Teams.PoolRemove | app/core/server/room.ts:126 | removing a team takes its players out of the pool |
| Teams.CancelOut | app/core/server/room.ts:124 | multiset cancellation used when one player is taken out |
| Teams.CancelIn | app/core/server/room.ts:146-148 | multiset cancellation used when one player is put in |
| Teams.PoolMember | app/core/server/room.ts:103-105 | a player is in the pool exactly when some team lists them |
| Teams.FindAppend | app/core/server/room.ts:148 | a key looked up after appending an entry is found in the old entries first |
| Teams.AppendFresh | app/core/server/room.ts:148 | appending a new key keeps the keys distinct |
| Teams.SimplifySnoc | app/core/server/room.ts:87-98 | one more loop iteration applies one step to the teams built so far and to the counter |
| Teams.SimplifyShape | app/core/server/room.ts:84-98 | the rebuilt teams hold no empty team and their keys lie below the counter, which is at least 1 |
| Teams.SimplifyPool | app/core/server/room.ts:84-98 | the loop gains and loses no player |
| Teams.NonZeroIdsSnoc | app/core/server/room.ts:92-97 | appending an entry adds its key to the non-zero keys when it is not 0 |
| Teams.NumberedSnoc | app/core/server/room.ts:92-97 | appending team 0 or the next number keeps the keys `1, 2, ...` in order |
| Teams.SimplifyNumbered | app/core/server/room.ts:84-98 | the renumbered teams carry the keys `1..` in order and the counter is one past the last |
| Teams.SquadsSnoc | app/core/server/room.ts:88-90 | appending a team adds its players to the non-empty squads when it has any |
| Teams.SimplifySquads | app/core/server/room.ts:84-98 | the non-empty teams keep their players and their order |
| Teams.ZeroAbsent | app/core/server/room.ts:92-93 | without a team 0 in the input, the rebuilt teams have none |
| Teams.SimplifyDistinct | app/core/server/room.ts:84-98 | the rebuilt teams have distinct keys |
| Teams.ZeroKept | app/core/server/room.ts:92-93 | a non-empty team 0 is kept as it is |
| Teams.SimplifiedSpec | app/core/server/room.ts:79-101 | `simplifyTeams` leaves no empty team, keeps a non-empty team 0, numbers the others `1..=k` in their old order, keeps the keys distinct and gains or loses no player |
| Teams.SimplifiedValid | app/core/server/room.ts:79-101 | `simplifyTeams` keeps the keys distinct and each player in at most one team |
| Teams.SimplifyFresh | app/core/server/room.ts:93-95 | every `set` the loop performs adds a new key |
| Teams.MaxId | app/core/server/room.ts:110-114 | a bound above every key, so the search of `getNewTeamId` ends |
| Teams.SmallestFreeUnique | app/core/server/room.ts:110-114 | the smallest positive key not in use is unique |
| Teams.NonZeroIdsMembers | app/core/server/room.ts:92-97 | a non-zero key is among the non-zero keys exactly when some entry has it |
| Teams.SmallestFreeNumbered | app/core/server/room.ts:110-114 | on teams numbered `1..=k`, the smallest free key is `k + 1` |
| Teams.SimplifiedNewId | app/core/server/room.ts:107-115 | after `simplifyTeams`, `getNewTeamId` returns one more than the number of renumbered teams |
| Teams.IndexOf | app/core/server/room.ts:122 | `indexOf` is -1 exactly when the player is absent, and otherwise the first index holding them |
| Teams.FirstWith | app/core/server/room.ts:121-130 | the first team listing the player, or the end when none does |
| Teams.Spliced | app/core/server/room.ts:124 | splicing a team's players in place keeps every key |
| Teams.SpliceOut | app/core/server/room.ts:124 | `splice(index, 1)` takes exactly one copy of the player out of the list |
| Teams.FindDistinct | app/core/server/room.ts:126 | with distinct keys, an entry's key is found at that entry |
| Teams.RemoveDistinct | app/core/server/room.ts:126 | removing one entry keeps the other keys distinct |
| Teams.RemovedDistinct | app/core/server/room.ts:117-133 | `removePlayer` keeps the keys distinct |
| Teams.SplicedPool | app/core/server/room.ts:124 | splicing the player out of a team takes one copy of them out of the pool |
| Teams.DeletedPool | app/core/server/room.ts:125-127 | deleting an empty team leaves the pool as it was |
| Teams.RemovedPool | app/core/server/room.ts:117-133 | `removePlayer` takes one copy of the player out of the teams when some team lists them, and otherwise changes nothing |
| Teams.RemovedSpec | app/core/server/room.ts:117-133 | `removePlayer` keeps the keys distinct, takes one copy of the player out when some team lists them, and otherwise changes nothing |
| Teams.RemovedValid | app/core/server/room.ts:117-133 | `removePlayer` keeps the keys distinct and each player in at most one team, and finds a team exactly when the player is in one |
| Teams.RemovedNoEmpty | app/core/server/room.ts:125-127 | `removePlayer` leaves no empty team behind when there was none |
| Teams.RemovedGone | app/core/server/room.ts:117-133 | after `removePlayer(p)` no team lists `p` and every other player is where they were |
| Teams.JoinedSpec | app/core/server/room.ts:144-149 | joining a team adds the player once, to that team, and keeps the keys distinct |
| Teams.JoinFresh | app/core/server/room.ts:144-149 | a player in no team who joins team `id` is then in exactly that team, once, and nobody else moves |
| Teams.MoveToTeam | app/core/server/room.ts:135-149 | after `addPlayer(p, id)` the player is in exactly team `id`, once, and nobody else moves |
| Teams.TeamOf | app/core/server/room.ts:250-255 | `playerToTeam` gives the key of the first team listing the player, or 0 |
| Teams.TeamOfSpec | app/core/server/room.ts:250-255 | a member of a team is reported on that team when each player is in at most one |
| Teams.TwoTeams | app/core/server/room.ts:121-130 | two different teams listing a player count them twice |
| Battle.Moved | app/core/server/room.ts:289 | a half move takes half the army rounded down, a full move all of it |
| Battle.Move | app/core/server/room.ts:287-310 | the source loses the moved army; between allies the target gains it and keeps its type; a general falls exactly when an enemy hits it with more than it holds, and then it becomes a city of the mover's colour holding the excess less one and its colour is reported |
| Battle.CeilHalf | app/core/server/room.ts:317 | `Math.ceil(a / 2)`: the smallest whole number at least half of `a` |
| Battle.AlliedMove | app/core/server/room.ts:291-299 | between allies the two amounts keep their sum, the source keeps its colour, and the target takes the mover's colour unless it is a general |
| Battle.HostileMove | app/core/server/room.ts:300-324 | against an enemy both lands lose the moved army; a target driven below zero is taken with `-amount - 1` in the mover's colour, and a general so taken becomes a city and reports its old colour |
| Battle.MovedLeaves | app/core/server/room.ts:289-294 | a full move leaves nothing behind and a half move leaves the larger half |
| Battle.GrowSpec | app/core/server/room.ts:363-378 | `addArmy` changes no colour or type and adds one exactly to owned cities and generals, and to owned plain land on every 25th turn |
| Battle.SurrenderSpec | app/core/server/room.ts:312-320 | after a general falls the victim owns none of the swept lands, each of which goes to the victor with its army halved, rounded up |
| Battle.SweepInit | app/core/server/room.ts:312-313 | before the loops nothing is swept |
| Battle.SweepStep | app/core/server/room.ts:313-319 | one inner iteration sweeps one not yet touched cell, moving the frontier one column on |
| Battle.SweepRow | app/core/server/room.ts:312-320 | finishing a row moves the frontier to the start of the next one |
| Battle.SweepDone | app/core/server/room.ts:312-320 | after the last row every cell of rows `1..=height`, columns `1..=width` is swept and the padding is not |
| Battle.MovementOkSpec | app/core/server/room.ts:274-284 | an accepted movement has both ends on the map, different ends, and the source among the target's neighbours, which is what `handleMove` relies on; where the as-written check does not throw it returns the corrected answer |
| Battle.MovementOk | app/core/server/room.ts:274-284 | an accepted movement has both ends on the map |
| Battle.CheckMovementAsWritten | app/core/server/room.ts:274-284 | as written, `checkMovement` never returns true; it throws only when both ends are on the map and the source has the mover's colour |
| Battle.CheckMovementAsWrittenThrows | app/core/server/room.ts:282 | as written, every movement that passes the other tests throws, so none is ever accepted |
| Battle.CheckMovementCounterexample | app/core/server/room.ts:282 | on a 1 by 2 map, moving two armies of colour 1 to the neighbouring land throws as written yet passes the intended check |
| Vote.LtIrreflexive | app/core/server/vote.ts:57 | no string is below itself in JavaScript's string order |
| Vote.LtTransitive | app/core/server/vote.ts:57 | JavaScript's string order is transitive |
| Vote.LtTrichotomy | app/core/server/vote.ts:57 | any two strings are equal or one is below the other |
| Vote.RanksTotal | app/core/server/vote.ts:53-59 | the comparator orders any two entries one way or the other |
| Vote.RanksTransitive | app/core/server/vote.ts:53-59 | the comparator's order is transitive |
| Vote.Insert | app/core/server/vote.ts:53-59 | inserting an entry adds exactly it to the list |
| Vote.InsertSorted | app/core/server/vote.ts:53-59 | inserting into an ordered list keeps it ordered |
| Vote.SortedCons | app/core/server/vote.ts:53-59 | an entry ranked before an ordered rest makes an ordered list |
| Vote.SortList | app/core/server/vote.ts:53 | `sort` keeps exactly the same entries |
| Vote.SortSorted | app/core/server/vote.ts:53-59 | `sort` leaves every list ordered by vote count, most first, then by value |
| Vote.WithCount | app/core/server/vote.ts:66 | `filter` keeps exactly the values of the entries with the given vote count |
| Vote.AnswerSpec | app/core/server/vote.ts:62-71 | with no entries the answer is the item's first allowed value; otherwise the top entry's value comes first and the answer holds exactly the values with the most votes |
| Vote.Answer | app/core/server/vote.ts:62-71 | the answer is never empty; with no entries it is the item's first allowed value, otherwise every answered value is the value of some entry |
| Vote.VotesAppend | app/core/server/vote.ts:37-39 | the votes of a player in two lists add up |
| Vote.VotesAt | app/core/server/vote.ts:37-39 | a player's votes split around one entry |
| Vote.VotesInsert | app/core/server/vote.ts:53-59 | inserting an entry adds its votes and nothing else |
| Vote.VotesSort | app/core/server/vote.ts:53-59 | sorting keeps every player's votes |
| Vote.VotesTwo | app/core/server/vote.ts:37-39 | two entries listing a player count two votes |
| Vote.FindPlayer | app/core/server/vote.ts:78 | `findIndex` gives the first entry listing the player, or nothing when none does |
| Vote.FindPlayerVotes | app/core/server/vote.ts:78 | `findIndex` finds an entry exactly when the player has a vote |
| Vote.FindValue | app/core/server/vote.ts:117 | `findIndex` gives an entry for the value, or nothing when there is none |
| Vote.RemoveOne | app/core/server/vote.ts:80-81 | `splice(indexOf(p), 1)` takes exactly one vote of `p` out of the entry |
| Vote.Withdraw | app/core/server/vote.ts:80-85 | withdrawing takes exactly one vote of the player out of the list |
| Vote.WithdrawOthers | app/core/server/vote.ts:80-85 | withdrawing one player's vote keeps every other player's votes |
| Vote.NoEmptySort | app/core/server/vote.ts:53-59 | sorting keeps every entry's voters |
| Vote.NoEmptyWithdraw | app/core/server/vote.ts:83-85 | an entry left without voters is dropped |
| Vote.RemoveFromListSpec | app/core/server/vote.ts:77-89 | removing a player's only vote leaves them none, keeps every other player's votes and leaves no empty entry |
| Vote.RevotesSpec | app/core/server/vote.ts:102-111 | with one vote, the player already votes `v` exactly when some entry for `v` lists them |
| Vote.CastSpec | app/core/server/vote.ts:117-122 | casting a vote for a player without one gives them one vote, for `v`, and keeps everybody else's |
| Vote.AddToListSpec | app/core/server/vote.ts:100-122 | voting again for the value one holds withdraws the vote; any other vote becomes the player's only vote; nobody else's votes change |
| Vote.InitialIsAnswers | app/core/server/vote.ts:43-49 | with no votes the answers `sort` reads off are the initial ones |
| Vote.SortDataSorted | app/core/server/vote.ts:52-60 | after `sort` every item's list is ordered |
| Vote.HoldsSort | app/core/server/vote.ts:53-59 | sorting keeps an entry for `v` listing the player |
| Vote.AddedList | app/core/server/vote.ts:99-125 | the list `add` leaves for the item has no empty entry, keeps everybody else's votes and holds the player's vote exactly as `AddToListSpec` says |
| Vote.SortDataKeeps | app/core/server/vote.ts:52-60 | sorting keeps every vote count and every non-empty entry |
| Vote.OneVoteSort | app/core/server/vote.ts:52-60 | sorting keeps one vote per player per item |
| Vote.AddKeeps | app/core/server/vote.ts:99-128 | `add` keeps one vote per player per item and no empty entry |
| Vote.AddSpec | app/core/server/vote.ts:99-128 | after `add` the item is set; voting again for the value one holds withdraws the vote, any other vote is the player's only vote for the item, and other players and items keep their votes |
| Vote.HasVotedSpec | app/core/server/vote.ts:77-89 | `remove` finds a vote exactly when the player has one in some item |
| Vote.RemoveSpec | app/core/server/vote.ts:74-97 | `remove` leaves the player without votes, keeps everybody else's, unsets no item that still has votes and keeps the invariants |
| Vote.VoteManager.constructor | app/core/server/vote.ts:41-49 | a new manager has no votes and the first allowed value of every item as its answer |
| Vote.VoteManager.Sort | app/core/server/vote.ts:51-72 | `sort` orders every list and sets the answers read off them |
| Vote.VoteManager.Remove | app/core/server/vote.ts:74-97 | `remove` reports exactly whether the player had a vote, and only then changes the lists and sorts again |
| Vote.VoteManager.Add | app/core/server/vote.ts:99-128 | `add` updates the item's list as `AddToData` says and sorts |
| Vote.AnswerAsWrittenHoldsNames | app/core/server/vote.ts:66-67 | as written, one vote for the maze map puts the voter's name list into the answer, while the filtered answer holds the value alone |
| Vote.AnswerAsWritten | app/core/server/vote.ts:66-69 | as written, with no entries the answer is the first allowed value; otherwise it is the first entry's `[value, players]` pair, so the players' names are part of the answer |
| Room.ExportPlayers | app/core/server/room.ts:103-105 | `exportPlayers` lists every team member, as often as the teams list them |
| Room.WithoutSpec | app/core/server/room.ts:118 | `Set.delete` keeps exactly the other members and changes nothing when the player is absent |
| Room.FirstSeat | app/core/server/room.ts:218-222 | the loop of `playerToColor` stops at the first seat of the player, or passes every seat |
| Room.ColorOfSpec | app/core/server/room.ts:217-225 | with one seat per player, a seated player gets the colour of their seat and anyone else 0 |
| Room.Toggle | app/core/server/room.ts:161-165 | `toggleReady` flips the player's ready flag and leaves every other player's |
| Room.ToggleTwice | app/core/server/room.ts:161-165 | toggling twice changes nothing |
| Room.AddedSpec | app/core/server/room.ts:135-154 | after `addPlayer` the player is in exactly the target team, once, nobody else moves, the keys stay distinct, and a new team id is the smallest positive one not in use |
| Room.AddedValid | app/core/server/room.ts:135-154 | `addPlayer` keeps the keys distinct and each player in at most one team |
| Room.SplitStays | app/core/server/room.ts:242-244 | once two different teams are seen, `winCheck` has given up |
| Room.ScanOpen | app/core/server/room.ts:236-245 | while the scan is open it has seen no team, or one team that every player with a team so far is on |
| Room.WinnerSpec | app/core/server/room.ts:233-248 | a winner is the team of some playing player and every playing player with a team is on it |
| Room.ScanOneTeam | app/core/server/room.ts:236-245 | when every player so far is on team `t`, the scan is open with `t` |
| Room.WinnerOneTeam | app/core/server/room.ts:233-248 | when all playing players are on team `t`, `t` wins |
| Room.Placed | app/core/server/room.ts:294-307 | writing both ends of a movement back changes those two cells and no other |
| Room.GeneralTaken | app/core/server/room.ts:300-323 | when a movement takes a general, its cell becomes the attacker's city and the victim keeps no land: each of its other lands is the attacker's with its army halved, rounded up |
| Room.Room.constructor | app/core/server/room.ts:32-65 | a new room has an empty 0 by 0 map, no teams, votes or game, and is rated exactly when its id is a rated room |
| Room.Room.SimplifyTeams | app/core/server/room.ts:79-101 | `simplifyTeams` does nothing while a game is on and otherwise leaves the renumbered teams, keeping the room valid |
| Room.Room.GetNewTeamId | app/core/server/room.ts:107-115 | `getNewTeamId` returns the smallest positive key no team has; with no game on, one more than the number of numbered teams |
| Room.Room.FindPlayer | app/core/server/room.ts:121-130 | the loop stops at the first team listing the player, or passes every team |
| Room.Room.RemoveFromTeams | app/core/server/room.ts:121-132 | the first team listing the player loses them and goes when left empty; the flag says whether such a team was found |
| Room.Room.RemovePlayer | app/core/server/room.ts:117-133 | `removePlayer` takes the player out of the playing players, the saved maps and their team, and returns true exactly when some team listed them |
| Room.Room.JoinTeam | app/core/server/room.ts:144-149 | the player is appended to the team, which is made when missing |
| Room.Room.AddPlayer | app/core/server/room.ts:135-154 | `addPlayer` moves the player into the target team; joining team 0 clears their ready flag and reports whether it was set |
| Room.Room.ToggleReady | app/core/server/room.ts:161-165 | `toggleReady` flips the player's ready flag |
| Room.Room.PlayerToColor | app/core/server/room.ts:217-225 | `playerToColor` returns the colour of the player's first seat, or 0 |
| Room.Room.WinCheck | app/core/server/room.ts:233-248 | `winCheck` returns the one team every playing player is on, or nothing |
| Room.Room.CheckMovement | app/core/server/room.ts:274-284 | a movement is accepted exactly when both ends pass `check`, the target is accessible, the source has the mover's colour and at least one army, and the target is among `neighbours(from)`; the two ends then differ |
| Room.Room.SweepLands | app/core/server/room.ts:312-320 | the nested loops sweep every cell of the map's rows and columns, in row-major order, and leave the padding |
| Room.Room.HandleMove | app/core/server/room.ts:286-326 | `handleMove` gives both ends the values of the clash; a fallen general hands every land of its colour to the mover and its colour is returned |
| Room.Room.AddArmy | app/core/server/room.ts:363-378 | `addArmy` grows every land as the growth rule says |

## Left out

- Face placement (`RP`, crates/algorithm/src/placement.rs) is f64 geometry, with `sqrt`, `cos` and normalisation, so the extractor's `rp` list is not modelled. Only the land graph and the land ids are.
- crates/generator/src/designer/mod.rs and the `generate` entry point of crates/generator/src/lib.rs are not part of this model. They cover the redraw loop around `draft` and seeding from OS entropy. Only the `interpolate!` macro of lib.rs is modelled.
- Unsigned arithmetic follows release builds: `u32` and `usize` wrap. The panics a debug build raises on overflow are not modelled.
- The bit-packed land encodings (land.rs in the Rust crates and wasm, land.ts) are not part of this model. Neither are `Land::from`/`export`. Lands are records of colour, type and amount.
- The wasm `Map` allocation in wasm/src/map.rs is not modelled. Only its row-major layout and its accessors are.
- ServerMap.Map.Mask: requires `Valid()`, meaning a grid of `(height+1)×(width+1)` lands. The constructor establishes this and `Set` keeps it. `Map.from` (app/core/server/game/map.ts:74-78), which rebuilds a map from an export, is not modelled.
- The server map is modelled in hexagon mode only, the only mode its `dir` implements.
- `Gm.empty` in app/game/gm/gm.ts fills every cell with the same `Land` object. Lands are values here, so that aliasing is not modelled.
- ClientAStar.AStar: requires a rectangular matrix and `from` inside it. Marking `from` visited in the source needs that row to exist.
- DesignerRandom.Draft: requires `city_cnt + player_count <= size`. Otherwise the source panics at `unwrap` after it has already changed some lands, and that partial update is not modelled.
- Sorting in `VoteManager.sort` is modelled as an insertion sort on the same order. Only the sorted result is specified, not the algorithm of `Array.prototype.sort`.
- Vote values are modelled by their `toString()` strings. This is what the sort compares, and for the fixed values of each item it decides `===`.
- `VoteManager.sample` (app/core/server/vote.ts:130-138) and the random draw from `ans` are left out because they are random choices over the answer. `voteAns` is a plain read of `ans`.
- Randomness is a nondeterministic choice in a range. No particular generator is modelled.
- `_.shuffle` in `gameStart` is left out, together with `gameStart` itself.
- `RoomManager` is left out: socket I/O, async tasks and rating.
- These `Room` members are outside the modelled core. `moveAll` (app/core/server/room.ts, lines 328-361) is the movement queue: it skips dead players, drops queued movements that fail `checkMovement`, applies the first valid one through `handleMove`, and collects the deaths. `patchAll` (lines 380-426) computes each player's map diff in memory. `maskAll` (lines 227-231) maps `mask` over the seats. `export` and `exportTeams` (lines 67-77 and 156-159) run `simplifyTeams` before exporting. `exportReadyPlayers` (lines 167-169) lists the ready players. `gameStart` (lines 171-215) seats the players and draws the map. `gameEnd` (lines 257-272) clears the game state and the interval timer.
- Vote.VoteManager.Sort and Room.Room.CheckMovement: they model the corrected behaviour, not the source as written. `Sort` sets `ans` by `Answers`, not by the `choices[0]` of app/core/server/vote.ts, line 67. `CheckMovement` uses `MovementOk` over `neighbours`, not the `neighbors` call of app/core/server/room.ts, line 282, which throws. The as-written members are listed under Findings.
- Matrices.Matrix.Set: requires the column to exist in its row. In JavaScript, assigning past the end of a row lengthens the row; that is not modelled.
- Vec2.Add, Vec2.Sub, Vec2.Mul: work over unbounded integers. Rust's `+`, `-` and `*` on the coordinate type wrap in release builds and panic in debug builds; neither overflow behaviour is modelled.
- Room.Room.HandleMove: when `from` and `to` are the same cell, the two updates of one land object cancel out in the source. The model states this outcome but not the aliasing behind it.
- `gamingPlayers` is a sequence in seat order rather than a `Set`.
- Strings are sequences of characters. Lengths are counted in UTF-16 code units via `Utf16`. There is no Unicode normalisation, and the `\s` class of `trim` is the set of characters listed in `Validator`.
- Validator.ValidatePassword: bounds the length in characters (a string of at least 6 characters is accepted; an accepted one has at least 3), rather than stating the exact code-unit count.
- Validator.ValidateCaptcha: bounds the length in characters (4 BMP characters are accepted; an accepted string has 2 to 4 characters), rather than stating the exact code-unit count.
- Validator.ValidatePage: numbers are exact reals, so `NaN` and `Infinity` are not modelled.
- Floating point in general (`interpolate!`, city density) is modelled with exact reals plus truncating, saturating `as u32` casts. Rounding is not modelled.
- The renderers, UI, routes, database models, session/captcha code, `formatLargeNumber` and the date formatters are outside the core and not modelled.

## Findings

| source | as written | input that shows it | evidently intended | confidence | as-written member | corrected member |
|---|---|---|---|---|---|---|
| app/core/server/room.ts:282 | `checkMovement` calls `this.gm.neighbors`, but the server map defines only `neighbours`, so the call throws for every movement that passes the other tests | a 1 by 2 map whose land [1,1] holds 2 armies of colour 1, moving to [1,2] | accept the move iff `to` is among `neighbours(from)` | not executed | Battle.CheckMovementAsWrittenThrows | Battle.MovementOkSpec |
| app/core/server/vote.ts:66-67 | `sort` stores `choices[0]`, the first `[value, players]` entry itself, as `ans[item]` | one vote for 迷宫地图 by "alice" | `ans[item]` holds the values of the tied leading entries | not executed | Vote.AnswerAsWrittenHoldsNames | Vote.AnswerSpec |
