# Game of Life engine on a dynamic bitset

This project models the generation engine of a terminal Game of Life program
(`main.cpp`) in Dafny and proves properties of it. The engine has two parts.

- `DynamicBitset` is a heap-allocated array of bits. `test` and `set` are
  bounds-checked and permissive: a read outside the range yields false, and a
  write outside it does nothing. The bitset also has a bulk `reset`, a
  size-aware `==`, and copy construction and assignment with value semantics.
- `CellularAutomaton` keeps three bitsets of `width*height` cells: the current
  generation `grid`, the scratch `nextGrid` and the previous generation
  `prevGrid`. Cell (x, y) is bit `y*width + x`. The board does not wrap around.
  - `countLiveNeighbors` counts the live in-bounds Moore neighbours of a cell.
  - `update` fills `nextGrid` cell by cell with the B3/S23 rule: a live cell
    survives with 2 or 3 live neighbours, and a dead cell is born with exactly 3.
  - `update` then stops (returns false) if the new generation equals the
    previous generation (a period-2 oscillator) or the current one (a still
    life). Otherwise it shifts prev ← current ← next and returns true.

The model has three modules:

- `Bitset` (`bitset.dfy`) has the class `DynamicBitset`. It holds an
  `array<bool>` and a ghost view `Bits()` of its contents. Every method states
  its new `Bits()` in terms of the old one.
- `Life` (`life.dfy`) is the pure specification of the game on values. It
  defines:
  - the neighbour count `Neighbors`, as a sum of the contributions of the
    eight offsets;
  - the rule `Rule`;
  - the next generation `Next`;
  - the stop-or-shift decision `Step` of one update.

  It also proves facts about them: the count's bound, what the count depends
  on, the all-dead fixed point, that any still life or any repeat of the
  previous generation stops the step, the 2x2 block still life and the
  blinker oscillator.
- `Automaton` (`automaton.dfy`) has the class `CellularAutomaton`. The loops
  of `countLiveNeighbors` and of the generation pass are proved to compute
  `Neighbors` and `Next` from `Life`. The straight-line stop test and shift
  of `update` are proved to leave the result and the generations that
  `Step` gives.

The stop test follows the code: it stops on a repeat of either the previous
or the current generation. The code has no dimension error of its own. The
check that both dimensions are positive happens in `main` (main.cpp:220-223),
before the automaton is built, so the model states it as the constructor's
precondition.

## Model

| member | source | states |
|---|---|---|
| Bitset.DynamicBitset.constructor | main.cpp:26 | A new bitset of `n` bits has size `n`, and every bit is clear. |
| Bitset.DynamicBitset.Copy | main.cpp:28-32 | The copy has the same size and the same bits as the original, in a freshly allocated buffer. |
| Bitset.DynamicBitset.Assign | main.cpp:34-44 | After assignment the target has the source's size and bits. Self-assignment keeps the same buffer and contents. Otherwise the buffer is freshly allocated. |
| Bitset.DynamicBitset.Test | main.cpp:50-56 | An index outside `[0, size)` reads as false. An index inside reads the stored bit. |
| Bitset.DynamicBitset.Set | main.cpp:58-63 | An in-range write changes exactly that bit to `value`. An out-of-range write changes nothing. The size never changes. |
| Bitset.DynamicBitset.Reset | main.cpp:65-70 | Every bit becomes false, and the size is unchanged. |
| Bitset.DynamicBitset.Equals | main.cpp:72-79 | The result is true if and only if both bitsets have the same size and the same bit at every index. This makes it reflexive and symmetric. |
| Automaton.CellularAutomaton.constructor | main.cpp:89-94 | Positive dimensions give three distinct, freshly allocated bitsets of `width*height` bits with fresh buffers, so the new automaton can be updated by its owner. The current generation is the given seed, and the next and previous generations are all dead. |
| Automaton.CellularAutomaton.Initialize | main.cpp:138-143 | Writing the seed cell by cell with `set` leaves the current generation equal to the seed. |
| Automaton.CellularAutomaton.CountLiveNeighbors | main.cpp:171-190 | The nested offset loops return exactly `Neighbors` of the current generation, and the count lies in 0..8. |
| Automaton.CellularAutomaton.ComputeNext | main.cpp:148-159 | Reset and the row-by-row loop leave `nextGrid` equal to `Next` of the current generation. |
| Automaton.CellularAutomaton.Update | main.cpp:147-169 | `nextGrid` holds `Next` of the old grid. The result, and the new current and previous generations, are those of `Step`. |
| Life.Step | main.cpp:161-168 | When it continues, the new current generation differs from both the new and the old previous generation. When it stops, both generations are left unchanged. The size is kept. |
| Life.StepDecision | main.cpp:161-168 | The update stops exactly when the next generation equals the previous or the current one. When it goes on, the previous generation becomes the current one and the current one becomes the next. |
| Life.Next | main.cpp:148-159 | The next generation has `width*height` cells. Each cell is fixed by `Life.NextAt`. |
| Life.Neighbors | main.cpp:171-190 | The count is at most 8. `Life.NeighborsOfDead` and `Life.NeighborsOfUpdate` pin it down: it is 0 on a dead grid, and each in-bounds Moore neighbour adds exactly its own state. |
| Life.Rule | main.cpp:156-157 | The B3/S23 rule. A live cell survives with 2 or 3 live neighbours, and a dead cell is born with exactly 3. `Life.NextAt` applies it to every cell. |
| Life.RuleCases | main.cpp:156-157 | Only a count of 2 or 3 leaves a cell alive. A dead cell comes alive exactly when its count is 3, and a count of 3 always gives a live cell. |
| Life.NextAt | main.cpp:150-157 | Cell `y*width + x` of the next generation is the B3/S23 rule applied to that cell's state and its neighbour count. |
| Life.NeighborsBound | main.cpp:171-190 | A cell has between 0 and 8 live neighbours. |
| Life.NeighborsAsSum | main.cpp:174-187 | The count is the sum of the eight off-centre offsets' contributions. Each contribution is 1 exactly when the neighbour is on the board and alive. |
| Life.NeighborsDifferAt | main.cpp:174-187 | Two grids that differ only at (cx, cy) have counts that differ by exactly that cell's contribution. The cell contributes only if it is an in-bounds Moore neighbour. |
| Life.NeighborsOfUpdate | main.cpp:176-184 | Changing one cell changes a count only when that cell is an in-bounds neighbour other than the centre, so there is no wrap-around and no self-count. |
| Life.NeighborsOfDead | main.cpp:171-190 | Every cell of an all-dead grid has no live neighbour. |
| Life.NextOfDead | main.cpp:148-159 | The all-dead grid is its own next generation. |
| Life.StepOnDeadStops | main.cpp:161-163 | On an all-dead grid, `update` stops at once, whatever the previous generation. |
| Life.IndexDivMod | main.cpp:152 | The index `y*width + x` of an in-bounds cell gives back its row by division and its column by remainder. |
| Life.IndexInjective | main.cpp:152 | Distinct in-bounds cells have distinct indices. |
| Life.BlockNext | main.cpp:148-159 | The 2x2 block filling a 2x2 board is a still life. |
| Life.StillLifeStops | main.cpp:161-163 | Any grid that is its own next generation stops `update` on its first call and leaves both generations as they were. |
| Life.RepeatOfPreviousStops | main.cpp:161-163 | A grid whose next generation equals the previous generation (a period-2 oscillator) stops `update` and leaves both generations as they were. |
| Life.BlockStops | main.cpp:161-163 | The 2x2 block on a 2x2 board stops `update` on its first call and leaves both generations as they were. |
| Life.BlinkerVNext | main.cpp:148-159 | The vertical blinker becomes the horizontal one. |
| Life.BlinkerHNext | main.cpp:148-159 | The horizontal blinker becomes the vertical one, so the blinker has period 2. |
| Life.BlinkerStopsAfterOneStep | main.cpp:161-168 | From the vertical phase, `update` continues once and shifts the generations. It then stops because the next generation repeats the previous one. |

## Left out

- `run` (main.cpp:96-130) is left out: screen control, timing, pacing and console output. It loops `update` until that returns false, and nothing bounds the number of rounds.
- `display` (main.cpp:192-199) is left out: it only renders the current generation to the terminal.
- The random seed of `initializeRandom` (main.cpp:139-141) is not modelled, because `srand`/`rand` are nondeterministic foreign calls. The seed is a constructor parameter `cells` of length `width*height`, written through `set` in the same loop.
- Argument parsing in `main` (main.cpp:202-218) is left out. Its dimension check (main.cpp:220-223) is kept as the constructor's precondition.
- `speed` is left out, because it only feeds the pause between frames.
- The destructor and the `new[]`/`delete[]` pairs (main.cpp:26, 37, 46-48) are left out. Dafny arrays are garbage-collected, and a fresh array stands for each allocation.
- Bitset.DynamicBitset.constructor: requires `n >= 0`; a negative size, which the C++ array allocation rejects, is not modelled.
- Bitset.DynamicBitset.Assign: does not return the target, because the assignment's result is never chained in the program.
- Each `std::bitset<1>` element is modelled as a `bool`.
- Automaton.CellularAutomaton.constructor: requires `width*height` to fit in a 32-bit `int`; C++ `int` overflow of `width*height` and of `y*width + x` is excluded rather than modelled.
- Periods longer than two are not detected by the program, and so not by the model.
