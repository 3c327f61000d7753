/**
 * The generator object: the tile grid it owns and updates in place, and the
 * methods that build a level in it. Each method is proved against the
 * function of the same name in Levels, applied to the grid it started from.
 */
module Generator {
  import opened Tiles
  import opened Levels

  /** The level size the generator starts with. */
  const DefaultWidth := 25
  const DefaultHeight := 30

  class LevelGenerator {
    var width: nat
    var height: nat
    /** grid[column, row]: width columns by height rows. */
    var grid: array2<TileType>

    ghost predicate Valid()
      reads this
    {
      grid.Length0 == width && grid.Length1 == height
    }

    /** The grid as a value. */
    ghost function Model(): (lv: Level)
      reads this, grid
      requires Valid()
      ensures lv.Valid() && lv.width == width && lv.height == height
    {
      var g := grid;
      Level(width, height,
        seq(g.Length0, c requires 0 <= c < g.Length0 reads g =>
          seq(g.Length1, r requires 0 <= r < g.Length1 reads g => g[c, r])))
    }

    /** The first generation, at the default size, with the draws given. */
    constructor (spawnColumn: int, spawnRow: int, exitColumn: int, fill: seq<Cell>)
      requires |fill| == FillCount
      ensures Valid() && fresh(grid)
      ensures width == DefaultWidth && height == DefaultHeight
      ensures Model() == Levels.GenerateLevel(DefaultWidth, DefaultHeight, spawnColumn, spawnRow, exitColumn, fill)
    {
      width, height := DefaultWidth, DefaultHeight;
      grid := new TileType[0, 0];
      new;
      GenerateLevel(DefaultWidth, DefaultHeight, spawnColumn, spawnRow, exitColumn, fill);
    }

    /** Whether (column, row) is outside the grid or holds a protected tile.
        PlaceTileType's contract shows this is the probe write's answer,
        negated. */
    predicate IsReserved(column: int, row: int)
      reads this, grid
      requires Valid()
    {
      !(0 <= column < width && 0 <= row < height) || IsProtected(grid[column, row])
    }

    /** The guarded write: it succeeds exactly when the cell is not reserved,
        and then, unless tile is the probe, the cell holds tile; no other cell
        changes. */
    method PlaceTileType(column: int, row: int, tile: TileType) returns (placed: bool)
      requires Valid()
      modifies grid
      ensures Valid() && grid == old(grid) && width == old(width) && height == old(height)
      ensures placed == !old(IsReserved(column, row))
      ensures forall c, r :: 0 <= c < width && 0 <= r < height ==>
        grid[c, r] == ApplyWrite(old(grid[c, r]), Write(column, row, tile), c, r)
    {
      if column >= width || column < 0 || row >= height || row < 0 {
        return false;
      }
      if IsProtected(grid[column, row]) {
        return false;
      }
      if tile == TestValue {
        return true;
      }
      grid[column, row] := tile;
      return true;
    }

    /** The base pass, column by column and row by row. */
    method CreateBaseLevel()
      requires Valid()
      modifies grid
      ensures Valid()
      ensures Model() == Levels.BaseLevel(width, height)
    {
      for i := 0 to grid.Length0
        invariant forall c, r :: 0 <= c < i && 0 <= r < grid.Length1 ==>
          grid[c, r] == BaseTile(grid.Length0, grid.Length1, c, r)
      {
        for j := 0 to grid.Length1
          invariant forall c, r :: 0 <= c < i && 0 <= r < grid.Length1 ==>
            grid[c, r] == BaseTile(grid.Length0, grid.Length1, c, r)
          invariant forall r :: 0 <= r < j ==> grid[i, r] == BaseTile(grid.Length0, grid.Length1, i, r)
        {
          if i == 0 || i == grid.Length0 - 1 {
            grid[i, j] := ReservedUnbreakable;
          } else if j == 0 || j == grid.Length1 - 1 {
            grid[i, j] := ReservedUnbreakable;
          } else {
            grid[i, j] := Empty;
          }
        }
      }
      ghost var expected := Levels.BaseLevel(width, height);
      forall c | 0 <= c < width
        ensures Model().cells[c] == expected.cells[c]
      {
        assert forall r :: 0 <= r < height ==> Model().cells[c][r] == expected.cells[c][r];
      }
      assert Model().cells == expected.cells;
    }

    /** The spawn structure at (column, row): it goes ahead exactly when
        SpawnFits holds of the grid, and then leaves every cell as SpawnCell
        says; otherwise the grid is unchanged. */
    method CreatePlayerSpawnPattern(column: int, row: int) returns (created: bool)
      requires Valid()
      modifies grid
      ensures Valid()
      ensures created == (1 <= column <= width - 2 && 1 <= row <= height - 3
        && !old(IsReserved(column, row)) && !old(IsReserved(column, row - 1)))
      ensures !created ==> unchanged(grid)
      ensures created ==> forall c, r :: 0 <= c < width && 0 <= r < height ==>
        grid[c, r] == SpawnCell(old(grid[c, r]), column, row, c, r)
    {
      if column <= 0 || column >= width - 1 {
        return false;
      }
      if row <= 0 || row >= height - 2 {
        return false;
      }
      if IsReserved(column, row) || IsReserved(column, row - 1) {
        return false;
      }
      var placed := PlaceTileType(column, row, Spawn);
      label L1: placed := PlaceTileType(column, row - 1, ReservedWall);
      label L2: placed := PlaceTileType(column - 1, row - 1, ReservedWall);
      label L3: placed := PlaceTileType(column + 1, row - 1, ReservedWall);
      label L4: placed := PlaceTileType(column - 1, row, ReservedWall);
      label L5: placed := PlaceTileType(column + 1, row, ReservedWall);
      label L6: placed := PlaceTileType(column - 1, row + 1, ReservedEmpty);
      label L7: placed := PlaceTileType(column, row + 1, ReservedEmpty);
      label L8: placed := PlaceTileType(column + 1, row + 1, ReservedEmpty);
      forall c, r | 0 <= c < width && 0 <= r < height
        ensures grid[c, r] == SpawnCell(old(grid[c, r]), column, row, c, r)
      {
        SpawnWritesCell(old(grid[c, r]), old@L1(grid[c, r]), old@L2(grid[c, r]), old@L3(grid[c, r]),
                        old@L4(grid[c, r]), old@L5(grid[c, r]), old@L6(grid[c, r]), old@L7(grid[c, r]),
                        old@L8(grid[c, r]), grid[c, r], column, row, c, r);
      }
      return true;
    }

    /** The exit at (column, row) with a plant on either side, each a guarded
        write; always reports success. */
    method CreateExitPattern(column: int, row: int) returns (created: bool)
      requires Valid()
      modifies grid
      ensures Valid()
      ensures created
      ensures forall c, r :: 0 <= c < width && 0 <= r < height ==>
        grid[c, r] == ExitCell(old(grid[c, r]), column, row, c, r)
    {
      var placed := PlaceTileType(column, row, Exit);
      placed := PlaceTileType(column - 1, row, Plant);
      placed := PlaceTileType(column + 1, row, Plant);
      return true;
    }

    /** One Probabilistic write per iteration, at the iteration's drawn cell. */
    method AddRandomTiles(amountOfTiles: int, draws: seq<Cell>)
      requires Valid() && amountOfTiles <= |draws|
      modifies grid
      ensures Valid()
      ensures forall c, r :: 0 <= c < width && 0 <= r < height ==>
        grid[c, r] == FillCell(old(grid[c, r]), draws[..if amountOfTiles < 0 then 0 else amountOfTiles], c, r)
    {
      var i := 0;
      while i < amountOfTiles
        invariant Valid()
        invariant 0 <= i <= |draws| && (i <= amountOfTiles || i == 0)
        invariant forall c, r :: 0 <= c < width && 0 <= r < height ==>
          grid[c, r] == FillCell(old(grid[c, r]), draws[..i], c, r)
      {
        var placed := PlaceTileType(draws[i].column, draws[i].row, Probabilistic);
        forall c, r | 0 <= c < width && 0 <= r < height
          ensures Cell(c, r) in draws[..i + 1] <==> Cell(c, r) in draws[..i] || Cell(c, r) == draws[i]
        {
          assert draws[..i + 1] == draws[..i] + [draws[i]];
        }
        i := i + 1;
      }
    }

    /** The patterns in their fixed order. */
    method CreatePatterns(spawnColumn: int, spawnRow: int, exitColumn: int, fill: seq<Cell>)
      requires Valid() && |fill| == FillCount
      modifies grid
      ensures Valid()
      ensures Model() == Levels.CreatePatterns(old(Model()), spawnColumn, spawnRow, exitColumn, fill)
    {
      ghost var start := Model();
      var created := CreatePlayerSpawnPattern(spawnColumn, spawnRow);
      ghost var spawned := Model();
      created := CreateExitPattern(exitColumn, ExitRow);
      ghost var exited := Model();
      AddRandomTiles(FillCount, fill);
      assert fill[..FillCount] == fill;
      CreatePatternsSteps(start, spawnColumn, spawnRow, exitColumn, fill, spawned, exited, Model());
    }

    /** A fresh grid of the requested size, the base pass, then the patterns. */
    method GenerateLevel(newWidth: nat, newHeight: nat, spawnColumn: int, spawnRow: int, exitColumn: int, fill: seq<Cell>)
      requires |fill| == FillCount
      modifies this
      ensures Valid() && fresh(grid)
      ensures width == newWidth && height == newHeight
      ensures Model() == Levels.GenerateLevel(newWidth, newHeight, spawnColumn, spawnRow, exitColumn, fill)
    {
      width := newWidth;
      height := newHeight;
      grid := new TileType[newWidth, newHeight];
      CreateBaseLevel();
      CreatePatterns(spawnColumn, spawnRow, exitColumn, fill);
    }

    /** The classification the instancing pass makes of every cell, where
        draws[column][row] is the value drawn for that cell. */
    method InstantiateLevel(draws: seq<seq<real>>) returns (objects: array2<Instance>)
      requires Valid()
      requires |draws| == width && forall c :: 0 <= c < width ==> |draws[c]| == height
      ensures fresh(objects) && objects.Length0 == width && objects.Length1 == height
      ensures forall c, r :: 0 <= c < width && 0 <= r < height ==>
        objects[c, r] == InstanceOf(grid[c, r], draws[c][r])
    {
      objects := new Instance[grid.Length0, grid.Length1];
      for i := 0 to grid.Length0
        invariant forall c, r :: 0 <= c < i && 0 <= r < grid.Length1 ==>
          objects[c, r] == InstanceOf(grid[c, r], draws[c][r])
      {
        for j := 0 to grid.Length1
          invariant forall c, r :: 0 <= c < i && 0 <= r < grid.Length1 ==>
            objects[c, r] == InstanceOf(grid[c, r], draws[c][r])
          invariant forall r :: 0 <= r < j ==> objects[i, r] == InstanceOf(grid[i, r], draws[i][r])
        {
          objects[i, j] := InstanceOf(grid[i, j], draws[i][j]);
        }
      }
    }
  }
}
