# Game of Life engine — a verified Dafny model

This project models the simulation core of a small WebAssembly Game of Life:
the two cell states, the fixed 80 × 100 toroidal world, and the `World` object
that owns a two-dimensional array of cells and offers `new`, `get_cell`,
`set_cell`, `count_neighbours`, `tick` and `set_random_grid`.

It has three modules:

- `Rules` (`rules.dfy`) holds the rules as pure functions. It defines the cell
  datatype `Cell` (src/lib.rs:98-102), the dimensions `WIDTH` = 80 and
  `HEIGHT` = 100 (src/lib.rs:104-105) and the torus wrap (`rem_euclid` and its
  restriction `Wrap` to one-step offsets). It also defines the eight neighbour
  offsets, in the order the engine's nested `dx`/`dy` loops visit them, the
  neighbour count, the per-cell transition rule (B3/S23, in the engine's
  match precedence) and the generation step `NextGeneration`.
- `Engine` (`world.dfy`) holds the class `World`. Its cells live in an
  `array2<Cell>`, and a ghost `Contents` grid, tied to the array by `Valid()`,
  is what the methods are specified against:
  - `CountNeighbours` runs the same nested loops as the engine. It is proved
    equal to `NeighbourCount`.
  - `Tick` fills a fresh buffer from the unmodified current generation, one
    column at a time through `NextColumn` (the inner `y` loop), and then swaps
    it in. It is proved to produce exactly `NextGeneration` of the
    old contents.
  - `SetRandomGrid` fills the world from an injected draw.
- `Patterns` (`patterns.dfy`) applies the rules to concrete worlds: the empty
  world, a lone cell, a blinker, an overcrowded centre, the block still life,
  and counts that wrap across the edges.

## Model

| member | source | states |
|---|---|---|
| Rules.RemEuclid | src/lib.rs:135-136 | the Euclidean remainder lies in [0, m); it is the identity on [0, m), adds m to values in [-m, 0) and subtracts m from values in [m, 2m) |
| Rules.Wrap | src/lib.rs:135-136 | a coordinate at most one step outside [0, size) wraps into [0, size) |
| Rules.WrapIsRemEuclid | src/lib.rs:135-136 | for a neighbour coordinate the torus wrap equals `rem_euclid`, so every wrapped neighbour index is in bounds |
| Rules.Neighbour | src/lib.rs:135-138 | the cell at the offset (dx, dy) from (x, y), both coordinates wrapped onto the torus |
| Rules.NeighbourIsRemEuclid | src/lib.rs:135-138 | the neighbour read by the count is the cell at `rem_euclid(x + dx, 80)`, `rem_euclid(y + dy, 100)` |
| Rules.Weight | src/lib.rs:138-141 | a neighbour contributes 1 if it is alive and 0 if it is dead |
| Rules.Offset | src/lib.rs:129-133 | each visited offset lies in {-1,0,1}² and is never the centre (0, 0) |
| Rules.Visited | src/lib.rs:129-133 | the number of offsets the nested scan has counted before reaching (dx, dy) is at most 8; for a non-centre offset, it is the index of that offset |
| Rules.CountFirst | src/lib.rs:127-143 | the running total after the first k offsets of the scan |
| Rules.NeighbourCount | src/lib.rs:126-143 | the sum of the live indicators over the eight offsets, in scan order |
| Rules.OffsetsAreTheEightNeighbours | src/lib.rs:129-133 | an offset in {-1,0,1}² is scanned if and only if it is not the centre; no offset is scanned twice |
| Rules.CountFirstBound | src/lib.rs:127-143 | after k offsets the running total is at most k |
| Rules.NeighbourCountEightOffsets | src/lib.rs:126-143 | the neighbour count is the sum of the live indicators of the eight wrapped neighbours, without the cell itself |
| Rules.NeighbourCountRange | src/lib.rs:126-149 | the neighbour count is in [0, 8] |
| Rules.NextCell | src/lib.rs:160-166 | the next state is alive exactly when the count is 3, or the cell is alive and the count is 2 |
| Rules.NextCellCases | src/lib.rs:160-166 | each arm of the rule: a live cell with fewer than 2 neighbours dies, with 2 or 3 it survives, with more than 3 it dies; a dead cell with 3 comes alive and otherwise stays dead |
| Rules.NextGeneration | src/lib.rs:152-173 | the next generation has the world's dimensions, and each cell's state is decided by its own state and its count in the previous generation |
| Rules.NextGenerationAt | src/lib.rs:157-168 | cell (x, y) of the next generation is the rule applied to the old cell and its old neighbour count |
| Rules.AllDead | src/lib.rs:112-116 | the all-dead grid has the world's dimensions, and every cell is dead |
| Rules.SetAt | src/lib.rs:122-124 | replacing one cell gives the new value at (x, y) and leaves every other cell unchanged |
| Engine.Drawn | src/lib.rs:175-187 | a randomised fill makes a cell alive exactly when its draw fell below one half |
| Engine.EveryGridIsDrawable | src/lib.rs:175-187 | every grid of the world's dimensions is the outcome of some draw |
| Engine.World.constructor | src/lib.rs:112-116 | a new world has the fixed dimensions, and every cell is dead |
| Engine.World.GetCell | src/lib.rs:118-120 | reading an in-range cell returns its current state |
| Engine.World.SetCell | src/lib.rs:122-124 | after writing c at (x, y), reading (x, y) gives c; every other cell is unchanged, and the array is updated in place |
| Engine.World.CountNeighbours | src/lib.rs:126-150 | the loop computes the live cells among the eight wrapped neighbours; the total is at most 8; the diagnostic branch is taken exactly when the total is 8, and the total returned is the same either way |
| Engine.World.Tick | src/lib.rs:152-173 | the new contents are `NextGeneration` of the old contents, computed entirely from the old generation into a fresh buffer (double buffering, deterministic) |
| Engine.World.NextColumn | src/lib.rs:156-169 | the inner scan of a tick: every cell of column x in the buffer receives the rule applied to the old cell and its old count, while the world and the buffer's other columns are unchanged |
| Engine.World.SetRandomGrid | src/lib.rs:175-187 | after the fill, each cell is alive exactly when its draw says so; the array is updated in place |
| Engine.Start | src/lib.rs:22-24 | at startup the world holds the successor of the drawn grid: new, filled from the draws, then advanced once |
| Patterns.AllDeadIsFixedPoint | src/lib.rs:152-173 | one generation of the empty world is the empty world |
| Patterns.CountWrapsAcrossEdges | src/lib.rs:135-136 | with only (0, 0) alive, cell (79, 99) counts it diagonally across both edges and cell (0, 99) counts it across the bottom edge |
| Patterns.LoneCellDies | src/lib.rs:161 | a single live cell has no live neighbour and dies |
| Patterns.BlinkerGivesBirth | src/lib.rs:164 | the dead cell beside the middle of a line of three has exactly 3 live neighbours and comes alive |
| Patterns.BlinkerFirstEndDies | src/lib.rs:161 | the end cell (1, 1) of a line of three has one live neighbour and dies |
| Patterns.BlinkerLastEndDies | src/lib.rs:161 | the other end cell (1, 3) has one live neighbour and dies |
| Patterns.FullSquareCentreDies | src/lib.rs:163 | the centre of a full 3×3 square counts 8 and dies of overcrowding; by `Engine.World.CountNeighbours`, 8 is the count that takes the diagnostic branch |
| Patterns.BlockCounts | src/lib.rs:126-150 | in the 2×2 block each block cell counts 3 and every other cell counts at most 2 |
| Patterns.BlockIsStillLife | src/lib.rs:152-173 | one generation leaves the 2×2 block unchanged |

## Left out

- `render` and `request_animation_frame` (src/lib.rs:14-19, 38-96) are left out. They draw on a browser canvas and schedule frames, which is browser I/O that does not change the world.
- `start` (src/lib.rs:21-36) runs the modelled operations in a fixed order: `new`, then `set_random_grid`, then one `tick` before the first frame, then one `tick` per animation frame. `Engine.Start` models the startup part, up to the first frame. The per-frame ticks and the frame scheduling are not modelled.
- The `log` call in `count_neighbours` is a foreign JavaScript function. It is modelled only by whether it is called: the `logged` out-parameter of `Engine.World.CountNeighbours`. The message text is left out.
- The randomness of `set_random_grid` is left out. The outcome of `Math::random() < 0.5` for each cell is a parameter, `draw`, and the uniform distribution itself is not modelled.
- Engine.World.CountNeighbours: requires x < 80 and y < 100. The engine accepts any `u32` and reduces `x as i32 + dx` modulo the size. `tick` only calls it with in-range coordinates, and out-of-range values (including those the `i32` cast would wrap) are not modelled.
- Engine.World.GetCell: requires in-range coordinates. Engine.World.SetCell has the same precondition. The engine indexes its array, which panics out of range; that panic is modelled as a precondition rather than an error result.
- The machine widths (`u32` coordinates, `i32` intermediate sums, the `u8` total) are modelled as unbounded integers. For in-range coordinates and at most eight neighbours none of them can overflow.
- `tick` assigns the new array by value. The model assigns a freshly allocated array, which nothing else references, so the result is the same.
