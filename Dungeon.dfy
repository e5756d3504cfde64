/** The small optional-value type used for results that can be absent. */
module Wrappers {
  datatype Option<T> = None | Some(value: T)
}

/**
 * The dungeon game, seen only through the narrow interface the two agents use.
 * The simulation itself (maps, movement, combat) is not modelled: a game is a
 * record of total functions over an abstract state type `S`.
 */
module Dungeon {

  /** What the grid queries of the play map report about one tile. */
  datatype Tile = Tile(
    passable: bool,
    hero: bool,
    monster: bool,
    reward: bool,
    potion: bool,
    exit: bool,
    entrance: bool)

  /**
   * The game state interface.
   * - `legal(s, a)`: is the hero's next position for action `a` a valid move in `s`
   * - `step(s, a)`: a clone of `s` with the game updated by action `a`
   * - `halted`, `heroAlive`, `hitpoints`: the game and hero status
   * - `deadRewards`, `deadMonsters`: the per-cell "already collected / killed" grids
   * - `sizeX`, `sizeY`, `tile(s, x, y)`: the grid dimensions and tile queries
   */
  datatype Game<!S> = Game(
    legal: (S, int) -> bool,
    step: (S, int) -> S,
    halted: S -> bool,
    heroAlive: S -> bool,
    hitpoints: S -> int,
    deadRewards: S -> seq<seq<bool>>,
    deadMonsters: S -> seq<seq<bool>>,
    sizeX: S -> nat,
    sizeY: S -> nat,
    tile: (S, int, int) -> Tile)

  /** Number of `true` cells in one row. */
  function RowCount(row: seq<bool>): nat
  {
    if row == [] then 0 else RowCount(row[..|row| - 1]) + (if row[|row| - 1] then 1 else 0)
  }

  /** Number of `true` cells in a (possibly jagged) boolean grid. */
  function GridCount(grid: seq<seq<bool>>): nat
  {
    if grid == [] then 0 else GridCount(grid[..|grid| - 1]) + RowCount(grid[|grid| - 1])
  }

  /** Number of cells of a (possibly jagged) grid. */
  function CellCount(grid: seq<seq<bool>>): nat
  {
    if grid == [] then 0 else CellCount(grid[..|grid| - 1]) + |grid[|grid| - 1]|
  }

  lemma {:induction false} RowCountBound(row: seq<bool>)
    ensures RowCount(row) <= |row|
    ensures RowCount(row) == |row| <==> forall j :: 0 <= j < |row| ==> row[j]
  {
    if row != [] {
      var init := row[..|row| - 1];
      RowCountBound(init);
      assert forall j :: 0 <= j < |init| ==> init[j] == row[j];
    }
  }

  /** The marked-cell count lies between 0 and the number of cells. */
  lemma {:induction false} GridCountBound(grid: seq<seq<bool>>)
    ensures GridCount(grid) <= CellCount(grid)
  {
    if grid != [] {
      GridCountBound(grid[..|grid| - 1]);
      RowCountBound(grid[|grid| - 1]);
    }
  }

  /**
   * Counts the `true` cells with two nested loops, over the rows and over the
   * cells of each row.
   */
  method CountMarked(grid: seq<seq<bool>>) returns (count: nat)
    ensures count == GridCount(grid)
    ensures count <= CellCount(grid)
  {
    count := 0;
    for i := 0 to |grid|
      invariant count == GridCount(grid[..i])
    {
      for j := 0 to |grid[i]|
        invariant count == GridCount(grid[..i]) + RowCount(grid[i][..j])
      {
        assert grid[i][..j + 1][..j] == grid[i][..j];
        if grid[i][j] {
          count := count + 1;
        }
      }
      assert grid[i][..|grid[i]|] == grid[i];
      assert grid[..i + 1][..i] == grid[..i];
    }
    assert grid[..|grid|] == grid;
    GridCountBound(grid);
  }
}
