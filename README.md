# Game of Life engine, in Dafny

This project models the engine of a terminal Game of Life. The engine is a
fixed 25 x 25 grid of booleans (`GridWidth`, `GridHeight`). Its edges wrap
around, so the grid is a torus. `Game` is a copy-on-write value: every
operation that changes the game returns a new `Game` and leaves its argument
alone.

- `life.dfy`, module `Life`: the grid type and the operations.
  - `NewGame`, `GetCell`, `SetCell` and `Clear` are pure functions.
  - `CountNeighbors`, `NextGeneration` and `ComputeNGenerations` are methods
    with the loops of the original. Each is proved equal to a specification
    function: `Neighbours` (an eight-term sum with `(v + size) % size`
    wrap-around), `Step` (Conway's rule applied to every cell of the old grid)
    and `Iterate` (`Step` applied n times).
- `properties.dfy`, module `LifeProperties`: general facts. Reading back a
  written cell, the bounds of the neighbour count, the count of 0 on a fresh
  game, and the fact that a cell is not its own neighbour. Also how
  generations compose, and still lifes and period-2 oscillators over any
  number of generations.
- `patterns.dfy`, module `LifePatterns`: the concrete situations of the unit
  tests. A test game is built the way the tests build it: `Clear`, then a
  sequence of `SetCell(x, y, true)`. The lemmas cover the neighbour counts
  of 8 and 3, the four corners that see each other through the
  wrap-around, the block still life and the blinker with period 2.

`Game.Valid()` states the shape that Go's array type `[25][25]bool`
guarantees: 25 rows of 25 cells. Every operation that reads the grid
requires it of its input, and every operation that returns a game ensures
it. Go arrays are values, so the grid is a `seq<seq<bool>>` updated
functionally. This includes the local `newGrid` that `NextGeneration` fills
cell by cell.

`CountNeighbors` requires `0 <= x < 25` and `0 <= y < 25`. Its only caller,
`NextGeneration` (game/life.go:49), and every test pass in-range cells. The
Go wrap-around moves any negative coordinate to 24 and any coordinate of 25
or more to 0, so it never indexes outside the array. `Wrap` states both
facts. Its result is always an index. For every coordinate in -1..25, the
only values an in-range cell produces, it equals the torus coordinate.
Further out, every negative value becomes 24 and every value of 25 or more
becomes 0, which in general is not the torus coordinate. For (-5, 5), for
example, it reads column 24 for all three column offsets.

`main.go:19` calls a `GetGeneration` accessor, and `main.go` uses pointer
receivers that mutate the game in place. `game/life.go` defines neither: it
has no generation counter, its `Game` holds only the grid, every operation
returns a new value, and `Clear` returns a fresh game. The model follows
`game/life.go`.

## Model

| member | source | states |
|---|---|---|
| `Life.Game.Valid` | game/life.go:3-11 | a game is 25 rows of 25 cells, the shape Go's array type guarantees |
| `Life.GetCell` | game/life.go:29-35 | a cell outside [0,25) x [0,25) reads as dead; a cell inside reads as its grid entry |
| `Life.SetCell` | game/life.go:18-27 | out of range the game is returned unchanged; in range the cell reads back as `alive` and every other cell reads as before; the shape is kept |
| `Life.NewGame` | game/life.go:13-16 | a well-shaped game in which every cell reads as dead |
| `Life.Clear` | game/life.go:37-40 | every cell reads as dead; the result is `NewGame()`, whatever the receiver held |
| `Life.ClearIgnoresReceiver` | game/life.go:38-40 | any two games clear to the same game |
| `Life.Wrap` | game/life.go:94-105 | the edge wrap-around always gives an index in [0, size); for v in [-1, size] it equals (v + size) mod size |
| `Life.WrappedNeighbour` | game/life.go:94-107 | for an in-range cell and an offset in -1..1, the cell the loop reads is the torus neighbour of the specification |
| `Life.RowsCountIsNeighbours` | game/life.go:88-111 | the loops' running count over all three rows is the eight-neighbour count |
| `Life.CountNeighbors` | game/life.go:85-113 | the loops return the number of live cells among the eight torus neighbours (centre skipped), between 0 and 8 |
| `Life.NextGeneration` | game/life.go:42-67 | the result is `Step(g)`: each cell is alive iff it was alive with 2 or 3 live neighbours or dead with exactly 3, counted on the old grid |
| `Life.ComputeNGenerations` | game/life.go:69-83 | n <= 0 gives back the game and 0; n > 0 gives n generations of `Step` and n |
| `LifeProperties.GetAfterSet` | game/life_test.go:11-20 | after `SetCell(x, y, v)`, cell (x, y) reads `v` when in range, and every cell else reads as before |
| `LifeProperties.SetCellTwice` | game/life.go:24-26 | a second write to the same cell overrides the first |
| `LifeProperties.SetCellSame` | game/life.go:24-26 | writing the value a cell already holds leaves the game equal |
| `LifeProperties.NeighboursBounded` | game/life.go:86-113 | the neighbour count is between 0 and 8 |
| `LifeProperties.NeighboursIgnoreCentre` | game/life.go:90-92 | changing a cell never changes its own neighbour count |
| `LifeProperties.NeighboursOfEmpty` | game/life_test.go:73-76 | on a fresh game every cell has 0 live neighbours |
| `LifeProperties.EmptyIsStill` | game/life.go:47-63 | a dead grid steps to a dead grid |
| `LifeProperties.IterateAdd` | game/life.go:76-80 | m generations followed by n more equal m + n generations |
| `LifeProperties.StillLifeForever` | game/life_test.go:143-157 | a game that `Step` leaves alone stays put for any number of generations |
| `LifeProperties.Alternates` | game/life_test.go:158-187 | two games that step into each other give the first after an even and the second after an odd number of generations |
| `LifePatterns.NewGameIsPattern` | game/life.go:13-16 | a fresh game is the pattern with no live cells |
| `LifePatterns.SetCellPattern` | game/life.go:18-27 | bringing an in-range cell of a pattern to life adds exactly that cell |
| `LifePatterns.NeighboursOfPattern` | game/life.go:94-107 | the torus count of a pattern equals the count through the edge wrap-around |
| `LifePatterns.StepPattern` | game/life.go:47-65 | a pattern steps to `next` when Conway's rule, applied to every in-range cell, gives exactly the members of `next` |
| `LifePatterns.PatternStepRule` | game/life.go:47-65 | conversely, when a pattern steps to `next`, Conway's rule at every in-range cell gives exactly the members of `next` |
| `LifePatterns.SeedIsPattern` | game/life_test.go:31-37 | a sequence of in-range `SetCell(x, y, true)` calls adds exactly the listed cells |
| `LifePatterns.SeedCleared` | game/life_test.go:31-37 | clearing and then seeding gives exactly the seeded cells, whatever the game held |
| `LifePatterns.RingHasEightNeighbours` | game/life_test.go:78-90 | with all eight cells around (1,1) alive, the count at (1,1) is 8 |
| `LifePatterns.ScatteredHasThreeNeighbours` | game/life_test.go:92-99 | with (0,0), (1,2) and (2,1) alive, the count at (1,1) is 3 |
| `LifePatterns.CornersArePattern` | game/life_test.go:101-107 | the corner test's game holds exactly the four corners |
| `LifePatterns.CornerPatternNeighbours` | game/life_test.go:109-131 | in the corner pattern each corner has 3 live neighbours |
| `LifePatterns.CornersSeeEachOther` | game/life_test.go:101-131 | with only the four corners alive, each corner has 3 live neighbours through the wrap-around |
| `LifePatterns.BlockIsPattern` | game/life_test.go:30-38 | the block test's game holds exactly (1,1), (1,2), (2,1), (2,2) |
| `LifePatterns.BlockRule` | game/life_test.go:29-42 | Conway's rule keeps every cell of the block pattern as it is |
| `LifePatterns.BlockIsStill` | game/life_test.go:29-42 | the block is unchanged by one generation |
| `LifePatterns.BlockForever` | game/life_test.go:142-157 | the block is unchanged after any number of generations |
| `LifePatterns.BlinkersArePatterns` | game/life_test.go:43-51 | the blinker tests' games hold exactly their three cells |
| `LifePatterns.BlinkerRowRule` | game/life_test.go:43-55 | Conway's rule turns the row (1,2), (2,2), (3,2) into the column (2,1), (2,2), (2,3), cell by cell |
| `LifePatterns.BlinkerColumnRule` | game/life_test.go:158-187 | Conway's rule turns the column back into the row, cell by cell |
| `LifePatterns.BlinkerOscillates` | game/life_test.go:43-55 | the row becomes the column after one generation, and the column becomes the row |
| `LifePatterns.BlinkerAfter` | game/life_test.go:158-187 | after n generations the blinker is the row when n is even and the column when n is odd |

## Left out

- main.go is not part of this model. It clears the terminal, prints the grid,
  places a glider and runs an endless loop with a 100 ms sleep. All of that
  is I/O and timing. It also calls an API that `game/life.go` does not
  define: pointer receivers that mutate in place, and `GetGeneration`.
- A generation counter (`GetGeneration`, called at main.go:19) is not
  modelled, because `game/life.go` does not implement one.
- The benchmark and the glider helper in `game/life_test.go` measure speed;
  they are not modelled.
- Go's 64-bit `int` is modelled as an unbounded `int`. The engine only
  compares coordinates and adds offsets of one to in-range values, and the
  generation loop counts up to `n`, so no wrap-around can happen.
- `countNeighbors` on coordinates outside the grid is not modelled. There the
  Go code returns a count over the edge columns or rows, not a torus count. `CountNeighbors`
  requires in-range coordinates, as its only caller and the tests use.
