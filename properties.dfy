/** General facts about the engine: how cells, neighbour counts and
    generations relate to one another. */
module LifeProperties {
  import opened Life

  /** Reading back a cell just written returns what was written; every other
      cell reads as before. */
  lemma GetAfterSet(g: Game, x: int, y: int, alive: bool, i: int, j: int)
    requires g.Valid()
    ensures GetCell(SetCell(g, x, y, alive), i, j) ==
      if (i, j) == (x, y) && InRange(x, y) then alive else GetCell(g, i, j)
  {
  }

  /** Writing a cell twice keeps only the second write. */
  lemma SetCellTwice(g: Game, x: int, y: int, a: bool, b: bool)
    requires g.Valid()
    ensures SetCell(SetCell(g, x, y, a), x, y, b) == SetCell(g, x, y, b)
  {
    if InRange(x, y) {
      var lhs := SetCell(SetCell(g, x, y, a), x, y, b);
      var rhs := SetCell(g, x, y, b);
      forall j | 0 <= j < GridHeight
        ensures lhs.grid[j] == rhs.grid[j]
      {
      }
    }
  }

  /** Writing the value a cell already holds changes nothing. */
  lemma SetCellSame(g: Game, x: int, y: int)
    requires g.Valid()
    ensures SetCell(g, x, y, GetCell(g, x, y)) == g
  {
    if InRange(x, y) {
      var r := SetCell(g, x, y, GetCell(g, x, y));
      forall j | 0 <= j < GridHeight
        ensures r.grid[j] == g.grid[j]
      {
      }
    }
  }

  /** Every neighbour count lies between 0 and 8. */
  lemma NeighboursBounded(g: Game, x: int, y: int)
    requires g.Valid()
    ensures 0 <= Neighbours(g, x, y) <= 8
  {
  }

  /** The cell itself is not one of its neighbours: changing it leaves its own
      count alone. */
  lemma NeighboursIgnoreCentre(g: Game, x: int, y: int, alive: bool)
    requires g.Valid() && InRange(x, y)
    ensures Neighbours(SetCell(g, x, y, alive), x, y) == Neighbours(g, x, y)
  {
  }

  /** On an all-dead grid no cell has a live neighbour. */
  lemma NeighboursOfEmpty(x: int, y: int)
    ensures Neighbours(NewGame(), x, y) == 0
  {
  }

  /** A dead grid stays dead. */
  lemma EmptyIsStill()
    ensures Step(NewGame()) == NewGame()
  {
    var g := NewGame();
    forall y, x | InRange(x, y)
      ensures Step(g).grid[y][x] == g.grid[y][x]
    {
      NeighboursOfEmpty(x, y);
      assert !GetCell(g, x, y);
    }
    forall y | 0 <= y < GridHeight
      ensures Step(g).grid[y] == g.grid[y]
    {
    }
  }

  /** Running m generations and then n more is running m + n generations. */
  lemma {:induction false} IterateAdd(g: Game, m: nat, n: nat)
    requires g.Valid()
    ensures Iterate(g, m + n) == Iterate(Iterate(g, m), n)
  {
    if n > 0 {
      IterateAdd(g, m, n - 1);
    }
  }

  /** A still life stays put for any number of generations. */
  lemma {:induction false} StillLifeForever(g: Game, n: nat)
    requires g.Valid()
    requires Step(g) == g
    ensures Iterate(g, n) == g
  {
    if n > 0 {
      StillLifeForever(g, n - 1);
    }
  }

  /** Two games that step into one another alternate forever: after an even
      number of generations the first, after an odd number the second. */
  lemma {:induction false} Alternates(g: Game, h: Game, n: nat)
    requires g.Valid() && h.Valid()
    requires Step(g) == h && Step(h) == g
    ensures Iterate(g, n) == if n % 2 == 0 then g else h
  {
    if n > 0 {
      Alternates(g, h, n - 1);
    }
  }
}
