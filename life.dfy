/** The Game of Life engine: a fixed 25 x 25 toroidal grid of booleans, used
    as a copy-on-write value. Every operation that "changes" the game returns
    a new Game and leaves its argument as it was. */
module Life {

  const GridWidth: int := 25
  const GridHeight: int := 25

  /** The game state. `grid[y][x]` is the cell in row y, column x. */
  datatype Game = Game(grid: seq<seq<bool>>) {
    /** The shape that the fixed-size array type of the engine guarantees. */
    predicate Valid() {
      |grid| == GridHeight &&
      forall y :: 0 <= y < |grid| ==> |grid[y]| == GridWidth
    }
  }

  predicate InRange(x: int, y: int) {
    0 <= x < GridWidth && 0 <= y < GridHeight
  }

  /** An all-dead grid: the zero value of the engine's grid array. */
  function EmptyGrid(): seq<seq<bool>> {
    seq(GridHeight, _ => seq(GridWidth, _ => false))
  }

  // ---------------------------------------------------------------------------
  // Cell access
  // ---------------------------------------------------------------------------

  /** Reads a cell; any coordinate outside the grid reads as dead. */
  function GetCell(g: Game, x: int, y: int): (alive: bool)
    requires g.Valid()
    ensures alive ==> InRange(x, y)
    ensures InRange(x, y) ==> alive == g.grid[y][x]
  {
    if 0 <= x < GridWidth && 0 <= y < GridHeight then g.grid[y][x] else false
  }

  /** Returns a copy of `g` with cell (x, y) set to `alive`; a coordinate outside
      the grid leaves the game as it was. */
  function SetCell(g: Game, x: int, y: int, alive: bool): (r: Game)
    requires g.Valid()
    ensures r.Valid()
    ensures !InRange(x, y) ==> r == g
    ensures InRange(x, y) ==> GetCell(r, x, y) == alive
    ensures forall i, j :: (i, j) != (x, y) ==> GetCell(r, i, j) == GetCell(g, i, j)
  {
    if x < 0 || x >= GridWidth || y < 0 || y >= GridHeight then g
    else Game(g.grid[y := g.grid[y][x := alive]])
  }

  /** A fresh game: every cell dead. */
  function NewGame(): (r: Game)
    ensures r.Valid()
    ensures forall x, y :: !GetCell(r, x, y)
  {
    Game(EmptyGrid())
  }

  /** A fresh game, whatever the receiver held. */
  function Clear(g: Game): (r: Game)
    ensures r.Valid()
    ensures forall x, y :: !GetCell(r, x, y)
    ensures r == NewGame()
  {
    NewGame()
  }

  /** Clearing forgets the receiver: any two games clear to the same game. */
  lemma ClearIgnoresReceiver(g1: Game, g2: Game)
    ensures Clear(g1) == Clear(g2)
  {
  }

  // ---------------------------------------------------------------------------
  // Neighbour counting on the torus
  // ---------------------------------------------------------------------------

  /** 1 when the cell at offset (dx, dy) from (x, y), taken modulo the grid
      size, is alive, and 0 otherwise. */
  function LiveAt(g: Game, x: int, y: int, dx: int, dy: int): nat
    requires g.Valid()
  {
    if g.grid[(y + dy + GridHeight) % GridHeight][(x + dx + GridWidth) % GridWidth] then 1 else 0
  }

  /** The number of live cells among the eight cells around (x, y) on the torus. */
  function Neighbours(g: Game, x: int, y: int): nat
    requires g.Valid()
  {
    LiveAt(g, x, y, -1, -1) + LiveAt(g, x, y, 0, -1) + LiveAt(g, x, y, 1, -1) +
    LiveAt(g, x, y, -1, 0)                           + LiveAt(g, x, y, 1, 0) +
    LiveAt(g, x, y, -1, 1)  + LiveAt(g, x, y, 0, 1)  + LiveAt(g, x, y, 1, 1)
  }

  /** Live cells at offsets (dx, dy) for -1 <= dx < k, skipping (0, 0):
      what the inner counting loop has seen so far in row dy. */
  function RowCount(g: Game, x: int, y: int, dy: int, k: int): nat
    requires g.Valid()
    requires -1 <= k <= 2
    decreases k + 1
  {
    if k == -1 then 0
    else RowCount(g, x, y, dy, k - 1) + (if k - 1 == 0 && dy == 0 then 0 else LiveAt(g, x, y, k - 1, dy))
  }

  /** Live neighbours in the rows -1 <= dy < k: what the outer counting loop
      has seen so far. */
  function RowsCount(g: Game, x: int, y: int, k: int): nat
    requires g.Valid()
    requires -1 <= k <= 2
    decreases k + 1
  {
    if k == -1 then 0 else RowsCount(g, x, y, k - 1) + RowCount(g, x, y, k - 1, 2)
  }

  /** Once both loops have run to the end they have seen all eight neighbours. */
  lemma RowsCountIsNeighbours(g: Game, x: int, y: int)
    requires g.Valid()
    ensures RowsCount(g, x, y, 2) == Neighbours(g, x, y)
  {
  }

  /** The wrap-around of the counting loop: a negative coordinate becomes the
      last index, one at or past `size` becomes 0. The result is always an
      index; for a coordinate inside the grid and an offset in -1..1 it is the
      torus coordinate (v + size) mod size. */
  function Wrap(v: int, size: int): (r: int)
    requires size > 0
    ensures 0 <= r < size
    ensures -1 <= v <= size ==> r == (v + size) % size
  {
    if v < 0 then size - 1 else if v >= size then 0 else v
  }

  /** The cell the counting loop reads for offset (dx, dy) is the torus cell
      that LiveAt reads. */
  lemma WrappedNeighbour(g: Game, x: int, y: int, dx: int, dy: int, nx: int, ny: int)
    requires g.Valid() && InRange(x, y)
    requires -1 <= dx <= 1 && -1 <= dy <= 1
    requires nx == Wrap(x + dx, GridWidth) && ny == Wrap(y + dy, GridHeight)
    ensures 0 <= nx < GridWidth && 0 <= ny < GridHeight
    ensures LiveAt(g, x, y, dx, dy) == if g.grid[ny][nx] then 1 else 0
  {
  }

  /** Counts the live neighbours of (x, y), wrapping at the edges. */
  method CountNeighbors(g: Game, x: int, y: int) returns (count: int)
    requires g.Valid()
    requires InRange(x, y)
    ensures count == Neighbours(g, x, y)
    ensures 0 <= count <= 8
  {
    count := 0;
    for dy := -1 to 2
      invariant count == RowsCount(g, x, y, dy)
    {
      for dx := -1 to 2
        invariant count == RowsCount(g, x, y, dy) + RowCount(g, x, y, dy, dx)
      {
        if dx == 0 && dy == 0 {
          continue;
        }
        var nx, ny := x + dx, y + dy;
        if nx < 0 {
          nx := GridWidth - 1;
        } else if nx >= GridWidth {
          nx := 0;
        }
        if ny < 0 {
          ny := GridHeight - 1;
        } else if ny >= GridHeight {
          ny := 0;
        }
        WrappedNeighbour(g, x, y, dx, dy, nx, ny);
        if g.grid[ny][nx] {
          count := count + 1;
        }
      }
    }
    RowsCountIsNeighbours(g, x, y);
  }

  // ---------------------------------------------------------------------------
  // Generations
  // ---------------------------------------------------------------------------

  /** Conway's rule for one cell: a live cell survives with 2 or 3 live
      neighbours, a dead cell is born with exactly 3. */
  predicate Rule(alive: bool, neighbours: int) {
    if alive then neighbours == 2 || neighbours == 3 else neighbours == 3
  }

  /** The state of cell (x, y) in the generation after `g`. */
  predicate NextCell(g: Game, x: int, y: int)
    requires g.Valid() && InRange(x, y)
  {
    Rule(g.grid[y][x], Neighbours(g, x, y))
  }

  /** The next generation, every cell computed from the old grid only. */
  function Step(g: Game): (r: Game)
    requires g.Valid()
    ensures r.Valid()
  {
    Game(seq(GridHeight, y requires 0 <= y < GridHeight =>
      seq(GridWidth, x requires 0 <= x < GridWidth => NextCell(g, x, y))))
  }

  /** `n` generations ahead of `g`. */
  function Iterate(g: Game, n: nat): (r: Game)
    requires g.Valid()
    ensures r.Valid()
  {
    if n == 0 then g else Step(Iterate(g, n - 1))
  }

  /** Computes the next generation into a fresh grid, reading only `g`. */
  method NextGeneration(g: Game) returns (next: Game)
    requires g.Valid()
    ensures next == Step(g)
    ensures forall x, y | InRange(x, y) ::
      GetCell(next, x, y) <==>
        (GetCell(g, x, y) && (Neighbours(g, x, y) == 2 || Neighbours(g, x, y) == 3)) ||
        (!GetCell(g, x, y) && Neighbours(g, x, y) == 3)
  {
    var newGrid := EmptyGrid();
    for y := 0 to GridHeight
      invariant |newGrid| == GridHeight
      invariant forall j :: 0 <= j < GridHeight ==> |newGrid[j]| == GridWidth
      invariant forall j, i :: 0 <= j < y && 0 <= i < GridWidth ==>
        newGrid[j][i] == NextCell(g, i, j)
    {
      for x := 0 to GridWidth
        invariant |newGrid| == GridHeight
        invariant forall j :: 0 <= j < GridHeight ==> |newGrid[j]| == GridWidth
        invariant forall j, i :: 0 <= j < y && 0 <= i < GridWidth ==>
          newGrid[j][i] == NextCell(g, i, j)
        invariant forall i :: 0 <= i < x ==> newGrid[y][i] == NextCell(g, i, y)
      {
        var neighbors := CountNeighbors(g, x, y);
        var cell := g.grid[y][x];
        if cell {
          newGrid := newGrid[y := newGrid[y][x := neighbors == 2 || neighbors == 3]];
        } else {
          newGrid := newGrid[y := newGrid[y][x := neighbors == 3]];
        }
      }
    }
    next := Game(newGrid);
    forall j | 0 <= j < GridHeight
      ensures newGrid[j] == Step(g).grid[j]
    {
    }
  }

  /** Advances `n` generations and reports how many were computed: none when
      `n` is not positive. */
  method ComputeNGenerations(g: Game, n: int) returns (result: Game, computed: int)
    requires g.Valid()
    ensures n <= 0 ==> result == g && computed == 0
    ensures n > 0 ==> result == Iterate(g, n) && computed == n
  {
    if n <= 0 {
      return g, 0;
    }
    var current := g;
    for i := 0 to n
      invariant current == Iterate(g, i)
    {
      current := NextGeneration(current);
    }
    return current, n;
  }
}
