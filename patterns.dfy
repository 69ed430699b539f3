/** Concrete patterns from the engine's unit tests: the neighbour counts they
    check, the block still life and the blinker oscillator. */
module LifePatterns {
  import opened Life
  import opened LifeProperties

  /** The game whose live cells are exactly the in-range members of `live`. */
  function Pattern(live: set<(int, int)>): (g: Game)
    ensures g.Valid()
    ensures forall x, y :: GetCell(g, x, y) <==> InRange(x, y) && (x, y) in live
  {
    Game(seq(GridHeight, y => seq(GridWidth, x => (x, y) in live)))
  }

  /** A fresh game is the empty pattern. */
  lemma NewGameIsPattern()
    ensures NewGame() == Pattern({})
  {
    var e := Pattern({});
    forall y | 0 <= y < GridHeight
      ensures NewGame().grid[y] == e.grid[y]
    {
    }
  }

  /** Bringing an in-range cell to life adds it to the pattern. */
  lemma SetCellPattern(live: set<(int, int)>, x: int, y: int, grown: set<(int, int)>)
    requires InRange(x, y)
    requires grown == live + {(x, y)}
    ensures SetCell(Pattern(live), x, y, true) == Pattern(grown)
  {
    var lhs, rhs := SetCell(Pattern(live), x, y, true), Pattern(grown);
    forall j | 0 <= j < GridHeight
      ensures lhs.grid[j] == rhs.grid[j]
    {
      forall i | 0 <= i < GridWidth
        ensures lhs.grid[j][i] == rhs.grid[j][i]
      {
        assert lhs.grid[j][i] == GetCell(lhs, i, j);
        assert rhs.grid[j][i] == GetCell(rhs, i, j);
      }
    }
  }

  /** 1 when (x, y) is in `live`, 0 otherwise. */
  function Count(live: set<(int, int)>, x: int, y: int): nat {
    if (x, y) in live then 1 else 0
  }

  /** The neighbour count of an in-range cell of a pattern, with the columns
      and rows on either side found by the engine's wrap-around. */
  function PatternNeighbours(live: set<(int, int)>, x: int, y: int): nat
    requires InRange(x, y)
  {
    var left, right := Wrap(x - 1, GridWidth), Wrap(x + 1, GridWidth);
    var up, down := Wrap(y - 1, GridHeight), Wrap(y + 1, GridHeight);
    Count(live, left, up) + Count(live, x, up) + Count(live, right, up) +
    Count(live, left, y)                       + Count(live, right, y) +
    Count(live, left, down) + Count(live, x, down) + Count(live, right, down)
  }

  /** The torus neighbour count of a pattern agrees with the count through the
      engine's wrap-around. */
  lemma NeighboursOfPattern(live: set<(int, int)>, x: int, y: int)
    requires InRange(x, y)
    ensures Neighbours(Pattern(live), x, y) == PatternNeighbours(live, x, y)
  {
  }

  /** A pattern steps to `next` when Conway's rule, applied to every in-range
      cell, gives exactly the members of `next`. */
  lemma StepPattern(live: set<(int, int)>, next: set<(int, int)>)
    requires forall x, y | InRange(x, y) ::
      Rule((x, y) in live, PatternNeighbours(live, x, y)) == ((x, y) in next)
    ensures Step(Pattern(live)) == Pattern(next)
  {
    var lhs, rhs := Step(Pattern(live)), Pattern(next);
    forall j | 0 <= j < GridHeight
      ensures lhs.grid[j] == rhs.grid[j]
    {
      forall i | 0 <= i < GridWidth
        ensures lhs.grid[j][i] == rhs.grid[j][i]
      {
        NeighboursOfPattern(live, i, j);
        assert rhs.grid[j][i] == GetCell(rhs, i, j);
        assert Pattern(live).grid[j][i] == GetCell(Pattern(live), i, j);
      }
    }
  }

  /** Conversely, when a pattern steps to `next`, Conway's rule applied to
      every in-range cell gives exactly the members of `next`. */
  lemma PatternStepRule(live: set<(int, int)>, next: set<(int, int)>)
    requires Step(Pattern(live)) == Pattern(next)
    ensures forall x, y | InRange(x, y) ::
      Rule((x, y) in live, PatternNeighbours(live, x, y)) == ((x, y) in next)
  {
    forall x, y | InRange(x, y)
      ensures Rule((x, y) in live, PatternNeighbours(live, x, y)) == ((x, y) in next)
    {
      NeighboursOfPattern(live, x, y);
      assert Step(Pattern(live)).grid[y][x] == NextCell(Pattern(live), x, y);
      assert Pattern(next).grid[y][x] == GetCell(Pattern(next), x, y);
      assert Pattern(live).grid[y][x] == GetCell(Pattern(live), x, y);
    }
  }

  /** The game a test builds by bringing `cells` to life one after another,
      starting from `g`. */
  function Seed(g: Game, cells: seq<(int, int)>): (r: Game)
    requires g.Valid()
    ensures r.Valid()
  {
    if cells == [] then g
    else
      var last := cells[|cells| - 1];
      SetCell(Seed(g, cells[..|cells| - 1]), last.0, last.1, true)
  }

  /** The cells listed in `cells`. */
  function CellSet(cells: seq<(int, int)>): set<(int, int)> {
    set c | c in cells
  }

  /** Seeding in-range cells into a pattern adds them to it. */
  lemma {:induction false} SeedIsPattern(live: set<(int, int)>, cells: seq<(int, int)>)
    requires forall i | 0 <= i < |cells| :: InRange(cells[i].0, cells[i].1)
    ensures Seed(Pattern(live), cells) == Pattern(live + CellSet(cells))
  {
    if cells != [] {
      var init, last := cells[..|cells| - 1], cells[|cells| - 1];
      SeedIsPattern(live, init);
      assert cells == init + [last];
      assert CellSet(cells) == CellSet(init) + {last};
      SetCellPattern(live + CellSet(init), last.0, last.1, live + CellSet(cells));
    } else {
      assert live + CellSet(cells) == live;
    }
  }

  /** Seeding a cleared game gives exactly the seeded cells. */
  lemma SeedCleared(g: Game, cells: seq<(int, int)>, live: set<(int, int)>)
    requires g.Valid()
    requires forall i | 0 <= i < |cells| :: InRange(cells[i].0, cells[i].1)
    requires live == CellSet(cells)
    ensures Seed(Clear(g), cells) == Pattern(live)
  {
    NewGameIsPattern();
    SeedIsPattern({}, cells);
    assert {} + CellSet(cells) == live;
  }

  // ---------------------------------------------------------------------------
  // Neighbour counts
  // ---------------------------------------------------------------------------

  /** All eight cells around (1, 1) alive. */
  function Ring(): Game {
    Seed(Clear(NewGame()), [(0, 0), (0, 1), (0, 2), (1, 0), (1, 2), (2, 0), (2, 1), (2, 2)])
  }

  /** With every surrounding cell alive the count is 8. */
  lemma RingHasEightNeighbours()
    ensures Neighbours(Ring(), 1, 1) == 8
  {
    var live := {(0, 0), (0, 1), (0, 2), (1, 0), (1, 2), (2, 0), (2, 1), (2, 2)};
    SeedCleared(NewGame(), [(0, 0), (0, 1), (0, 2), (1, 0), (1, 2), (2, 0), (2, 1), (2, 2)], live);
    NeighboursOfPattern(live, 1, 1);
  }

  /** Three of the eight cells around (1, 1) alive. */
  function Scattered(): Game {
    Seed(Clear(Ring()), [(0, 0), (1, 2), (2, 1)])
  }

  /** With three of the surrounding cells alive the count is 3. */
  lemma ScatteredHasThreeNeighbours()
    ensures Neighbours(Scattered(), 1, 1) == 3
  {
    var live := {(0, 0), (1, 2), (2, 1)};
    SeedCleared(Ring(), [(0, 0), (1, 2), (2, 1)], live);
    NeighboursOfPattern(live, 1, 1);
  }

  const Last: int := GridWidth - 1
  const Bottom: int := GridHeight - 1

  /** Only the four corner cells alive. */
  function Corners(): Game {
    Seed(Clear(Scattered()), [(0, 0), (Last, 0), (0, Bottom), (Last, Bottom)])
  }

  /** The corner test's game holds exactly the four corners. */
  lemma CornersArePattern()
    ensures Corners() == Pattern({(0, 0), (Last, 0), (0, Bottom), (Last, Bottom)})
  {
    SeedCleared(Scattered(), [(0, 0), (Last, 0), (0, Bottom), (Last, Bottom)],
      {(0, 0), (Last, 0), (0, Bottom), (Last, Bottom)});
  }

  /** Each corner of the corner pattern has the three other corners around it. */
  lemma CornerPatternNeighbours(x: int, y: int)
    requires (x == 0 || x == Last) && (y == 0 || y == Bottom)
    ensures PatternNeighbours({(0, 0), (Last, 0), (0, Bottom), (Last, Bottom)}, x, y) == 3
  {
  }

  /** Through the wrap-around at both edges, each corner sees the other three. */
  lemma CornersSeeEachOther(x: int, y: int)
    requires (x == 0 || x == Last) && (y == 0 || y == Bottom)
    ensures Neighbours(Corners(), x, y) == 3
  {
    var live := {(0, 0), (Last, 0), (0, Bottom), (Last, Bottom)};
    CornersArePattern();
    NeighboursOfPattern(live, x, y);
    CornerPatternNeighbours(x, y);
  }

  // ---------------------------------------------------------------------------
  // Still life and oscillator
  // ---------------------------------------------------------------------------

  /** The 2 x 2 block with its top-left cell at (1, 1). */
  function Block(): Game {
    Seed(Clear(NewGame()), [(1, 1), (1, 2), (2, 1), (2, 2)])
  }

  /** The block test's game holds exactly the four block cells. */
  lemma BlockIsPattern()
    ensures Block() == Pattern({(1, 1), (1, 2), (2, 1), (2, 2)})
  {
    SeedCleared(NewGame(), [(1, 1), (1, 2), (2, 1), (2, 2)], {(1, 1), (1, 2), (2, 1), (2, 2)});
  }

  /** Conway's rule keeps every cell of the block pattern as it is. */
  lemma BlockRule(x: int, y: int)
    requires InRange(x, y)
    ensures var live := {(1, 1), (1, 2), (2, 1), (2, 2)};
      Rule((x, y) in live, PatternNeighbours(live, x, y)) == ((x, y) in live)
  {
  }

  /** The block is a still life. */
  lemma BlockIsStill()
    ensures Step(Block()) == Block()
  {
    var live := {(1, 1), (1, 2), (2, 1), (2, 2)};
    forall x, y | InRange(x, y)
      ensures Rule((x, y) in live, PatternNeighbours(live, x, y)) == ((x, y) in live)
    {
      BlockRule(x, y);
    }
    StepPattern(live, live);
    BlockIsPattern();
  }

  /** The block survives any number of generations. */
  lemma BlockForever(n: nat)
    ensures Iterate(Block(), n) == Block()
  {
    BlockIsStill();
    StillLifeForever(Block(), n);
  }

  /** A horizontal row of three cells in row 2. */
  function BlinkerRow(): Game {
    Seed(Clear(NewGame()), [(1, 2), (2, 2), (3, 2)])
  }

  /** The same blinker, turned upright in column 2. */
  function BlinkerColumn(): Game {
    Seed(Clear(NewGame()), [(2, 1), (2, 2), (2, 3)])
  }

  /** The blinker tests' games hold exactly their three cells. */
  lemma BlinkersArePatterns()
    ensures BlinkerRow() == Pattern({(1, 2), (2, 2), (3, 2)})
    ensures BlinkerColumn() == Pattern({(2, 1), (2, 2), (2, 3)})
  {
    SeedCleared(NewGame(), [(1, 2), (2, 2), (3, 2)], {(1, 2), (2, 2), (3, 2)});
    SeedCleared(NewGame(), [(2, 1), (2, 2), (2, 3)], {(2, 1), (2, 2), (2, 3)});
  }

  /** Conway's rule turns the row into the column, cell by cell. */
  lemma BlinkerRowRule(x: int, y: int)
    requires InRange(x, y)
    ensures var row, column := {(1, 2), (2, 2), (3, 2)}, {(2, 1), (2, 2), (2, 3)};
      Rule((x, y) in row, PatternNeighbours(row, x, y)) == ((x, y) in column)
  {
  }

  /** Conway's rule turns the column back into the row, cell by cell. */
  lemma BlinkerColumnRule(x: int, y: int)
    requires InRange(x, y)
    ensures var row, column := {(1, 2), (2, 2), (3, 2)}, {(2, 1), (2, 2), (2, 3)};
      Rule((x, y) in column, PatternNeighbours(column, x, y)) == ((x, y) in row)
  {
  }

  /** The blinker turns upright and back: period 2. */
  lemma BlinkerOscillates()
    ensures Step(BlinkerRow()) == BlinkerColumn()
    ensures Step(BlinkerColumn()) == BlinkerRow()
  {
    var row, column := {(1, 2), (2, 2), (3, 2)}, {(2, 1), (2, 2), (2, 3)};
    forall x, y | InRange(x, y)
      ensures Rule((x, y) in row, PatternNeighbours(row, x, y)) == ((x, y) in column)
      ensures Rule((x, y) in column, PatternNeighbours(column, x, y)) == ((x, y) in row)
    {
      BlinkerRowRule(x, y);
      BlinkerColumnRule(x, y);
    }
    StepPattern(row, column);
    StepPattern(column, row);
    BlinkersArePatterns();
  }

  /** After an even number of generations the blinker lies flat, after an odd
      number it stands upright. */
  lemma BlinkerAfter(n: nat)
    ensures Iterate(BlinkerRow(), n) == if n % 2 == 0 then BlinkerRow() else BlinkerColumn()
  {
    BlinkerOscillates();
    Alternates(BlinkerRow(), BlinkerColumn(), n);
  }
}
