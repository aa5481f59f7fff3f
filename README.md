# Toroidal Game of Life engine, modelled in Dafny

This project models the cellular-automaton engine of a WebAssembly Game of
Life. The engine is the `Universe` of `src/lib.rs`: a square grid of cells on
a torus, stored one bit per cell, and advanced by Conway's rule. The project
also models the part of `www/index.js` that reads the engine's bit-packed
buffer: `getIndex`, `bitIsSet` and the loops of `drawCells` without the
drawing.

Files and modules:

- `conway.dfy`, module `Conway`: the rule as pure functions over a row-major
  `seq<bool>`. It defines the row-major index, the standard neighbour count
  (`NeighborCount`: the eight cells at offsets -1, 0, +1 on each axis, modulo
  the side, without the centre), and the count as the engine's loop computes
  it (`NeighborCountAsWritten`). It also defines the per-cell rule (`Rule`),
  the next generation (`Next`) and the single-cell flip (`Toggled`), with
  lemmas about each.
- `universe.dfy`, module `Engine`: class `Universe` with the fields `width`,
  `height` and `cells`. The fixed-size bit set is an `array<bool>`. The
  methods mirror `new`, `width`, `height`, `get_index`,
  `live_neighbor_count`, `tick`, `toggle_cell` and `randomize`. `Tick` and
  `ToggleCell` give the new buffer as `Next` and `Toggled` of the old one.
  The constructor and `Randomize` give it as a prefix of the injected
  `bits`. `GetIndex` and `LiveNeighborCount` give their results as the
  `Conway` functions `Index` and `NeighborCountAsWritten`.
- `render.dfy`, module `Render`: the renderer's decoder. `Pack` is the byte
  layout of the engine's buffer (8 cells per byte, least significant bit
  first). `BitIsSet` is the renderer's mask test. `DecodeCells` is the
  `drawCells` loop. The round trip is proved in both directions.
- `patterns.dfy`, module `Patterns`: a concrete packed 3 by 3 grid, and a
  grid 1 wide and 3 high on which the engine's count and the standard count
  give different next states.

Modelling choices:

- The random source `js_sys::Math::random() < 0.5` is an injected
  `seq<bool>`. `new` and `randomize` set cell `i` to `bits[i]`.
- The engine computes indices in `u32`. `Universe.Valid()` keeps
  `width * height < 2^32`. Every sum the neighbour loop forms is proved to
  stay below 2^32 (`Engine.OffsetFits`, `Engine.SideBound`), so no
  wrap-around happens and unbounded `nat` arithmetic is exact.
- The grid is always square: the only constructor, `new(length)`, sets
  `width = height = length`. `Valid()` records this. The engine's count
  equals the standard count on every grid whose sides are both at least 2
  (`Conway.AsWrittenAgrees`). On the 1 by 1 grid the counts differ but the
  next states agree (`Conway.RuleAgrees`). The next states can differ
  only when exactly one side is 1, a shape `new` never builds (see
  Findings).
- `toggle_cell` has no bounds check in the code, so `ToggleCell` requires
  `row < height && col < width`. Out of range, the code either toggles a
  different cell (`toggle_cell(0, width)` flips cell `(1, 0)`) or indexes
  past the bit set. Neither is an error value.
- `new` does not reject a side of 0. It builds an empty grid on which `tick`
  never enters its loops, so `height - 1` is never evaluated. The model
  therefore allows `length = 0`. `live_neighbor_count` requires an in-range
  cell, which rules out its underflow.
- `new` and `toggle_cell` return no error value. `new` always sets every
  cell from the random source; an all-dead start is the case where `bits` is
  all `false`. `tick` replaces the buffer (`self.cells = next`) instead of
  updating it in place, so `Tick` ensures `fresh(cells)`, and the old buffer
  stays unchanged until it is dropped.

## Model

| member | source | states |
|---|---|---|
| Conway.IndexBounds | src/lib.rs:39-41 | an in-range `(row, col)` has row-major index `row * width + col` below `width * height` |
| Conway.IndexDecodes | src/lib.rs:39-41 | the index divided by the width gives back the row, and the remainder gives back the column |
| Conway.IndexInjective | src/lib.rs:39-41 | distinct in-range coordinates have distinct indices |
| Conway.IndexOnto | src/lib.rs:39-41 | every index below `width * height` is the index of an in-range `(row, col)` |
| Engine.Universe.GetIndex | src/lib.rs:39-41 | `get_index` of an in-range cell lies inside the buffer and is the row-major index |
| Engine.Universe.LiveNeighborCount | src/lib.rs:43-58 | the nested loops over offsets `[side - 1, 0, 1]` with the zero-offset skip return exactly the engine's count, which is at most 8 |
| Engine.OffsetFits | src/lib.rs:51-52 | `row + delta_row` and `column + delta_col` stay below 2^17, so within `u32`, on a valid universe |
| Conway.NeighborCountAsWritten | src/lib.rs:43-58 | the count as the engine's loop computes it is at most 8 |
| Conway.NeighborCount | src/lib.rs:43-58 | the standard toroidal count over the eight offset cells is at most 8 |
| Conway.SourceDeltaWraps | src/lib.rs:45-52 | `(x + [side - 1, 0, 1][k]) % side` is the wrapped neighbour coordinate `(x + k - 1) mod side` |
| Conway.AsWrittenAgrees | src/lib.rs:45-54 | when both sides are at least 2, the engine's count equals the standard toroidal count |
| Patterns.NarrowColumnCounts | src/lib.rs:45-54 | at the middle cell of a grid 1 wide and 3 high, the standard count holds the middle cell twice and the engine's count holds it once, each with the cells above and below three times |
| Patterns.NarrowColumnDiffers | src/lib.rs:45-77 | on that grid an isolated live middle cell has standard count 2 and survives, and engine count 1 and dies |
| Conway.NeighborsDistinct | src/lib.rs:45-52 | when both sides are at least 3, the eight positions are pairwise distinct and none is the cell itself |
| Conway.SingleCellCount | src/lib.rs:45-54 | on a 1 by 1 torus the standard count is 8 for a live cell and 0 for a dead one |
| Conway.SingleCellCountAsWritten | src/lib.rs:45-54 | on a 1 by 1 grid the engine's count is 5 for a live cell and 0 for a dead one |
| Conway.SingleCellCountsDiffer | src/lib.rs:47-49 | a live 1 by 1 grid is an input on which the engine's count (5) and the standard count (8) differ |
| Conway.Rule | src/lib.rs:72-77 | the next state is alive iff there are 3 live neighbours, or the cell is alive with 2; a live cell with fewer than 2 or more than 3 dies; a dead cell without exactly 3 stays dead |
| Conway.RuleAgrees | src/lib.rs:68-77 | on a square grid the rule gives the same state from the engine's count as from the standard count |
| Conway.Next | src/lib.rs:63-82 | the next generation has the same size, and each cell is `Rule` of that cell and its count in the old generation |
| Conway.NextIsLocal | src/lib.rs:64-81 | two generations that agree on a cell and its 8 neighbours give the same next state for that cell |
| Conway.DeadStaysDead | src/lib.rs:72-77 | an all-dead grid is unchanged by a step |
| Engine.Universe.Tick | src/lib.rs:63-82 | the new buffer is `Next` of the old one; width and height are unchanged; the old buffer is never written and is replaced by a fresh one |
| Engine.Universe.constructor | src/lib.rs:84-103 | `new(length)` gives `width = height = length` and `length * length` cells with cell `i` equal to `bits[i]` |
| Engine.SideBound | src/lib.rs:87-90 | a side whose square fits in `u32` is below 2^16 |
| Engine.Universe.Width | src/lib.rs:109-111 | returns the stored width, the side of a square whose area is the buffer length, below 2^16 |
| Engine.Universe.Height | src/lib.rs:113-115 | returns the stored height, the side of a square whose area is the buffer length, below 2^16 |
| Engine.Universe.ToggleCell | src/lib.rs:121-125 | the buffer afterwards is the old buffer with exactly the bit at `get_index(row, col)` flipped |
| Conway.Toggled | src/lib.rs:121-125 | flipping index `i` keeps the length, negates element `i` and keeps every other element |
| Conway.ToggleTwice | src/lib.rs:121-125 | toggling the same cell twice restores the grid |
| Conway.ToggleCommutes | src/lib.rs:121-125 | toggling two cells gives the same grid in either order |
| Engine.Universe.Randomize | src/lib.rs:127-131 | every cell `i` of the buffer becomes `bits[i]`; width, height and length are unchanged |
| Render.GetIndex | www/index.js:93-95 | the renderer's index is the engine's row-major index |
| Render.BitIsSet | www/index.js:97-101 | the mask test holds iff byte `n / 8` exists and its bit `n % 8`, counted from the least significant bit, is 1 |
| Render.Pack | src/lib.rs:117-119 | the packed buffer has `ceil(N / 8)` bytes for `N` cells |
| Render.PackByteBit | src/lib.rs:117-119 | bit `j` of a packed byte is cell `j` of its chunk, and 0 past the chunk |
| Render.PackThenBitIsSet | www/index.js:97-101 | `bitIsSet(i, Pack(cells))` is `cells[i]` for every `i < N`, and reads as clear in the padding |
| Render.UnpackPack | www/index.js:97-101 | decoding the first `N` bits of a packed buffer returns the `N` cells it was packed from |
| Render.PackUnpack | www/index.js:97-101 | packing every bit read from a buffer rebuilds that buffer |
| Render.LongerView | www/index.js:106-113 | decoding the first `N` bits of a view that runs past the packed bytes, whatever those further bytes hold, returns the `N` cells |
| Render.Unpack | www/index.js:110-113 | the decoded grid has one state per cell, and state `i` is `bitIsSet(i, bytes)` |
| Render.DecodeCells | www/index.js:103-131 | the `drawCells` loops read every `(row, col)` at an index below `width * height` and produce the decoded grid in row-major order |
| Patterns.DiagonalPacking | www/index.js:97-101 | toggling `(0, 0)`, `(1, 1)` and `(2, 2)` on a dead 3 by 3 grid packs to bytes `0x11, 0x01` |

## Findings

| source | as written | input that shows it | evidently intended | confidence | as-written member | corrected member |
|---|---|---|---|---|---|---|
| src/lib.rs:45-49 | the neighbour loop skips a step when the offset values `delta_row == 0 && delta_col == 0`, so on a side of 1 (offsets `[0, 0, 1]`) it skips four of the nine steps | `Universe::new(1)` with its single cell alive: the count is 5, not the 8 of a 1 by 1 torus | skip only the centre step, so every torus counts 8 neighbour positions | medium (not executed); no effect on `tick`: a live cell dies with 5 and with 8 (`Conway.RuleAgrees`) | Conway.SingleCellCountsDiffer | Conway.SingleCellCount |

The rest of the model uses the corrected count. `Conway.NeighborCount` is the
standard toroidal count, and `Conway.Next` is defined from it. The method
`Engine.Universe.LiveNeighborCount` keeps the engine's loop as written.
`Engine.Universe.Tick` is still proved to produce `Next`, because
`Conway.RuleAgrees` shows that the two counts give the same next state on
every square grid. The two counts are equal on every grid whose sides are
both at least 2. When exactly one side is 1 (never built by `new`), the next
states can differ: on a grid 1 wide and 3 high, an isolated live cell survives with
the standard count (2) and dies with the engine's (1)
(`Patterns.NarrowColumnDiffers`).

## Left out

- The bit set's storage in `u32` blocks (FixedBitSet) is a library that is not part of this model. The buffer is an `array<bool>`. On little-endian WebAssembly memory the blocks take 4 * ceil(N / 32) bytes, and the renderer's `Uint8Array` (www/index.js:106) spans `width * height` bytes. `Render.Pack` is only the first ceil(N / 8) of those bytes, the only ones `bitIsSet` reads for a cell index below N. `Render.LongerView` shows that whatever the bytes after them hold does not change the decoded cells.
- The raw-pointer export `cells()` (src/lib.rs:117-119) and the `Uint8Array` view over WebAssembly memory (www/index.js:3-4, 106) are foreign-memory aliasing. They are not modelled. The decoder takes the packed bytes as a value.
- `Math.random()` is a floating-point call into a foreign library. It is replaced by the injected `bits` sequence.
- Left out as plumbing with no engine behaviour: `utils::set_panic_hook`, the `wee_alloc` allocator, the unused `Cell` enum, `render` and the empty `Display` implementation.
- Left out as drawing, input and timing code: `drawGrid`, the colour helpers `randomColorBetween` and `jitterColor`, `fillRect`, the button handlers, the FPS counter and `requestAnimationFrame`. The renderer's construction call `Universe.new()` (www/index.js:11) passes no length, and the value that becomes is not part of this model.
- www/webpack.config.js is build configuration and is not part of this model.
- The fixed-pattern examples of a still-life block and an oscillating blinker are not proved as concrete lemmas. The general properties `Conway.Rule`, `Conway.Next` and `Conway.NextIsLocal` cover the rule they exercise.
- Engine.Universe.constructor: requires `length * length < 2^32`. Past that, the engine's `u32` product overflows (a panic in a debug build, wrap-around in release), and that is not modelled.
