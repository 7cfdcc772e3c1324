# rust_life_wasm Universe, modelled in Dafny

The `Universe` of rust_life_wasm runs Conway's Game of Life on a fixed-size
toroidal grid. It holds a `width`, a `height`, two cell buffers of
`width * height` cells stored row-major, and a `toggle` flag that selects the
active buffer. `new` seeds the active buffer with a fixed pattern: cell `i` is
alive when `i` is even or a multiple of 7. `tick` reads only the active
buffer, writes each cell's next state into the other buffer, and then flips
`toggle`. `count` finds the four wrapped neighbour rows and columns and counts
the live cells among a cell's eight neighbours.

The project has three modules:

- `Grid` (grid.dfy) holds the pure part:
  - `get_index` and its decoding;
  - the wrapped north/south/west/east steps;
  - `count`;
  - the rule `count == 3 || (cell && count == 2)`;
  - the synchronous generation `Step` that `tick` computes, fixed by the rule
    at every position from the current generation alone.
- `Game` (universe.dfy) is the `Universe` itself: a class with the source's
  five fields, where the two buffers are `array<bool>`. The constructor fills
  the seed in a loop. `Tick` runs the source's nested row/column loops, which
  are proved to write exactly `Step` of the old generation into the scratch
  buffer.
- `Scenarios` (scenarios.dfy) works out concrete generations:
  - the 3 x 3 default seed;
  - a blinker on a 4 x 4 torus.

The source's `get_index` and `count` read `self.width` and `self.height`. In
the model they are functions of `width` and `height` passed in, so the class
and the lemmas share one definition.

In `Universe::new(3, 3)` cell 7 is alive as well as the even cells, because
`7 % 7 == 0` (src/lib.rs:33). So:
- `Scenarios.IsSeed3x3` is `1,0,1,0,1,0,1,1,1`;
- `Scenarios.ThreeByThreeDiesOut` proves that one tick kills every cell. On a
  3 x 3 torus each cell neighbours all eight others, so live cells see 5 live
  neighbours and dead cells see 6.

## Model

| member | source | states |
|---|---|---|
| Grid.GetIndex | src/lib.rs:53-55 | the row-major index `row * width + col` of an in-range cell is below `width * height`, so it addresses the buffer and never leaves the `u32` range |
| Grid.IndexDecode | src/lib.rs:53-55 | the index decodes back: its quotient by `width` is the row and its remainder is the column |
| Grid.IndexOfPosition | src/lib.rs:53-55 | every buffer position `i < width * height` is the index of the in-range cell (`i / width`, `i % width`), so the mapping is onto |
| Grid.IndexInjective | src/lib.rs:53-55 | two in-range cells have the same index if and only if they are the same cell |
| Grid.Prev | src/lib.rs:94 | north of `row` (west of `col`) wraps from 0 to `n - 1`, stays in range, and equals the cell itself exactly when the ring has one element (self-adjacency when `height == 1`) |
| Grid.Next | src/lib.rs:95 | south of `row` (east of `col`) wraps from `n - 1` to 0, stays in range, and equals the cell itself exactly when the ring has one element |
| Grid.PrevNextInverse | src/lib.rs:94-97 | the wrapped south step undoes the wrapped north step, and the other way round |
| Grid.WrapStep | src/lib.rs:94-97 | the source's boundary tests compute exactly the Euclidean `(x - 1) mod n`, `x` and `(x + 1) mod n` |
| Grid.TorusNeighbourAt | src/lib.rs:99-106 | each of the eight positions `count` reads is the toroidal neighbour at the matching displacement |
| Grid.Count | src/lib.rs:93-120 | the neighbour count, read only from the buffer passed in, lies in 0..8 |
| Grid.CountIsTorusCount | src/lib.rs:93-120 | `count` equals the number of live cells at the eight displacements of the Moore neighbourhood, with rows taken mod `height` and columns mod `width` |
| Grid.Bit | src/lib.rs:109-116 | `cell as u8` is 1 for a live cell and 0 for a dead one |
| Grid.LiveAmong | src/lib.rs:108-119 | a count of listed positions never exceeds the number of positions listed |
| Grid.LiveAmongPositive | src/lib.rs:108-119 | such a count is positive if and only if some listed position is alive |
| Grid.LiveAmongEight | src/lib.rs:108-119 | over eight positions the count is the sum of the eight `as u8` bits |
| Grid.SelfNeighbour | src/lib.rs:94-106 | a cell is among its own eight neighbours if and only if the grid is one row high or one column wide |
| Grid.CornerWraps | src/lib.rs:94-97 | a live cell at (0, 0) is counted by the cells across the bottom, right and bottom-right borders |
| Grid.NextCell | src/lib.rs:74-84 | the four Life rules: a live cell dies with fewer than two or more than three neighbours and survives with two or three; a dead cell is born with exactly three |
| Grid.StepCell | src/lib.rs:70-84 | the next state of the cell at flat position `i`: alive again exactly when it is alive with two or three live neighbours, or dead with exactly three, counted in the current generation at its decoded (row, col) |
| Grid.StepPrefix | src/lib.rs:68-88 | the first `n` cells, in the row-major order of `tick`'s loops, of the generation those loops write; it has exactly `n` entries |
| Grid.Step | src/lib.rs:68-88 | the whole generation `tick`'s loops write: one entry per cell, as long as the current generation |
| Grid.StepPrefixAt | src/lib.rs:68-86 | entry `i` of the row-major prefix of the next generation is the rule applied at position `i` of the current one |
| Grid.StepAt | src/lib.rs:70-86 | cell (row, col) of the next generation is the rule applied to the current cell and to its neighbour count in the current generation |
| Grid.StepFollowsRule | src/lib.rs:68-86 | the next generation follows the rule at every in-range cell |
| Grid.RuleDeterminesStep | src/lib.rs:68-86 | any sequence that follows the rule at every cell, counting from the pre-tick buffer, is the next generation, so the update is synchronous |
| Grid.FollowsRuleByRows | src/lib.rs:68-69 | following the rule in every row is following it everywhere |
| Grid.Oscillates | src/lib.rs:57-91 | two patterns that tick into each other alternate in every later generation |
| Game.Universe.Active | src/lib.rs:62-66 | the buffer `tick` reads (`active`) is one of the Universe's two buffers |
| Game.Universe.Scratch | src/lib.rs:62-66 | the buffer `tick` writes (`inactive`) is the other of the two buffers, never the one it reads |
| Game.Universe.Cells | src/lib.rs:44-51 | `cells` shows the contents of the buffer that `toggle` selects: one cell per grid position |
| Game.Universe.constructor | src/lib.rs:29-42 | after `new`, `toggle` is true and `bufferA` is active with `width * height` cells, where cell `i` is alive if and only if `i % 2 == 0 \|\| i % 7 == 0`; `bufferB` is a distinct buffer of the same length and all dead |
| Game.Universe.Tick | src/lib.rs:57-91 | `toggle` is negated, so the former scratch buffer becomes active; the new generation is `Step` of the old one and follows the rule; width, height, both buffer objects and their lengths are unchanged; the pre-tick active buffer is left exactly as it was |
| Game.WriteGeneration | src/lib.rs:62-88 | the nested row/column loops write, into the scratch buffer only and every cell of it, the next generation of the active buffer |
| Scenarios.ThreeByThreeDiesOut | src/lib.rs:29-91 | one generation of the 3 x 3 default seed leaves every cell dead |
| Scenarios.SeedFollowsRule | src/lib.rs:68-86 | the all-dead grid follows the rule from the 3 x 3 seed at every cell |
| Scenarios.HorizontalFlips | src/lib.rs:68-86 | a horizontal blinker on a 4 x 4 torus becomes a vertical one |
| Scenarios.VerticalFlips | src/lib.rs:68-86 | the vertical blinker becomes horizontal again |
| Scenarios.BlinkerPeriodTwo | src/lib.rs:57-91 | on a 4 x 4 torus, the blinker alternates between its two phases every tick, indefinitely |
| Scenarios.ThreeByThreeUniverse | src/lib.rs:29-91 | a Universe built as 3 x 3 and ticked once is valid, still 3 x 3, and shows only dead cells |

## Left out

- The `Timer` from the `utils` module (src/lib.rs:6, 58) only measures time and has no effect on the cells; utils is not part of this model.
- The `wasm_bindgen` attributes and the `alert` extern (src/lib.rs:13-16) are host glue with no logic.
- The `wee_alloc` global allocator (src/lib.rs:8-11) is an allocation strategy and is not modelled.
- `FixedBitSet` stores cells packed into words. Each buffer is modelled as an `array<bool>` instead.
- Game.Universe.Cells: returns the active buffer's contents as a sequence, not the `*const u32` pointer to the packed words that `cells` hands to JavaScript.
- `tick` uses a raw pointer (`*mut FixedBitSet`) and `unsafe` to write the inactive buffer while reading the active one. The model uses two distinct arrays selected by `toggle`; `Valid` requires them distinct and `Tick` may modify only the scratch one.
- Game.Universe.constructor: requires `width * height < 2^32`. In the source a larger product would overflow `u32` in `new` and `get_index`; the model excludes those grids rather than modelling wrap-around.
- Grid.Count: requires `row < height` and `col < width`, which `tick`'s loops guarantee. On a grid with no rows or no columns, `height - 1` or `width - 1` would underflow, but `tick`'s loops never run there.
- The sum in `count` is a `u8`. It is modelled as a `nat`, which is the same value because the sum is at most 8.

