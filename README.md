# Level generator grid builder, in Dafny

This project models the grid builder of a Unity platformer's `LevelGenerator`.
The builder owns a `TileType[column, row]` array and fills it in four steps:

1. A base pass writes unbreakable walls around the border and an empty interior.
2. Every later change goes through one guarded write, `PlaceTileType`. It refuses
   cells outside the grid and "protected" cells. When asked to write the probe
   value `TestValue`, it only reports whether it would have written
   (`IsReserved`).
3. Three patterns are built from guarded writes, always in the same order:
   - the player spawn, on a five-wall floor with three cells of clearance above it;
   - the exit, with a plant on either side;
   - 35 `Probabilistic` tiles at random cells.
4. The instancing pass decides what each tile becomes. A `Probabilistic` tile
   becomes a hazard, a pick-up, a wall or nothing, depending on a uniform draw.

The project has three modules:

- `Tiles` (`tiles.dfy`):
  - the tile enumeration and the protected set;
  - the tile-to-object classification and how a `Probabilistic` draw resolves.
- `Levels` (`levels.dfy`): the grid as a value, `Level(width, height, cells)`.
  - Every step above is a function from the grid before to the grid after.
  - Each function comes with lemmas giving its result one cell at a time as a
    closed form (`SpawnCell`, `ExitCell`, `FillCell`).
  - `Keeps(a, b)` is the monotonicity relation: b has a's shape, and every cell
    that a protects holds the same value in b.
- `Generator` (`generator.dfy`): the class `LevelGenerator`.
  - It holds `width`, `height` and an `array2<TileType>`, and its methods change
    the array in place as the C# code does.
  - Each method's postcondition gives the new array by the closed form of the
    matching `Levels` function, applied to the old array.
  - `CreatePatterns`, `GenerateLevel` and the constructor are tied to the
    `Levels` functions directly, through the ghost view `Model()`.

Random draws are parameters:

- the spawn column and row;
- the exit column;
- the 35 fill cells, a `seq<Cell>`;
- one `real` in [0, 1) per cell for `Random.value`.

Three behaviours of the code are easy to misread, and the model follows the
code on each:

- The protected set has eight members and leaves out `ReservedHazard` and
  `ReservedKeyItem`, so those two reserved tiles can be overwritten.
- The exit tile goes through the guarded write. It is not placed when its
  cell is already protected, yet the exit pattern still reports success
  (`Levels.ExitPatternMayMissExit`).
- The spawn pattern writes five `ReservedWall` cells: below, below-left,
  below-right, left and right of the spawn.

## Model

| member | source | states |
|---|---|---|
| Tiles.ProtectedByFacets | Assets/Scripts/LevelGenerator.cs:261-264 | The protected tiles are exactly Spawn, Exit, and the reserved variants of every kind except Hazard and KeyItem. ReservedHazard and ReservedKeyItem are the only reserved values that are not protected. |
| Tiles.InstanceDependsOnKindOnly | Assets/Scripts/LevelGenerator.cs:161-229 | The instancing switch gives a plain tile and its reserved variant the same object, checked against an independent table indexed by kind. Only Probabilistic tiles depend on the draw. |
| Tiles.ResolveThresholds | Assets/Scripts/LevelGenerator.cs:211-226 | A Probabilistic draw resolves to a hazard iff draw < 0.20, a pick-up iff 0.20 <= draw < 0.40, a wall iff 0.40 <= draw < 0.80, and nothing iff draw >= 0.80. |
| Tiles.HitsUpTo | Assets/Scripts/LevelGenerator.cs:211-226 | Among the first n of the draws 0/100, 1/100, …, 99/100, the number that resolve to each outcome, in closed form. |
| Tiles.ProbabilisticWeights | Assets/Scripts/LevelGenerator.cs:210-226 | Over the hundred draws k/100, the outcomes are split 20 hazard, 20 pick-up, 40 wall and 20 nothing, and no other object occurs. These are the weights the source comment states. |
| Levels.Place | Assets/Scripts/LevelGenerator.cs:252-278 | The guarded write succeeds iff the cell is in bounds and not protected. On failure, or for the probe value, the grid is unchanged. On a real write, the target cell holds the new tile. The shape never changes. |
| Levels.PlaceCell | Assets/Scripts/LevelGenerator.cs:252-278 | The effect of one write on any cell: a protected cell keeps its value, the target cell takes the tile, and every other cell keeps its value. |
| Levels.PlaceFrame | Assets/Scripts/LevelGenerator.cs:254-277 | A write changes at most its target cell and never a protected cell. |
| Levels.IsReserved | Assets/Scripts/LevelGenerator.cs:240-243 | The query is true iff the cell is out of bounds or protected. The probe write it runs leaves the grid unchanged. |
| Levels.PlaceAllKeeps | Assets/Scripts/LevelGenerator.cs:261-268 | Monotonicity: after any sequence of guarded writes, every cell that was protected still holds its value. |
| Levels.PlaceAllProtectedCell | Assets/Scripts/LevelGenerator.cs:261-268 | After any sequence of writes, a cell that was protected keeps its value and refuses every further write. |
| Levels.PlaceAllCell | Assets/Scripts/LevelGenerator.cs:252-278 | A sequence of writes acts on each cell independently: its final value is the writes to that cell applied in order. |
| Levels.BaseLevel | Assets/Scripts/LevelGenerator.cs:110-135 | The base grid has the requested shape. A cell is ReservedUnbreakable iff it is on the border (first or last column or row), and Empty iff it is not. |
| Levels.SpawnWritesCell | Assets/Scripts/LevelGenerator.cs:383-395 | The nine spawn writes, in the source's order, leave each cell as SpawnCell says, provided the spawn cell and the cell below it were free. |
| Levels.SpawnPatternCells | Assets/Scripts/LevelGenerator.cs:383-395 | When the spawn pattern goes ahead, every cell of the result is as SpawnCell says. |
| Levels.SpawnPatternSpec | Assets/Scripts/LevelGenerator.cs:360-398 | The spawn pattern keeps every protected cell. It succeeds iff the column is in [1, w-2], the row is in [1, h-3], and neither the spawn cell nor the cell below it is reserved; on failure the grid is unchanged. On success, the spawn cell is Spawn and the cell below it is ReservedWall. The other walls and the ReservedEmpty cells in row r+1 are written only where not protected, and no cell outside the 3×3 block changes. |
| Levels.ExitPatternSpec | Assets/Scripts/LevelGenerator.cs:400-406 | The exit pattern always reports success and keeps every protected cell. Each of its three cells is a guarded write, as ExitCell says, and nothing else in the row or elsewhere changes. |
| Levels.ExitPatternMayMissExit | Assets/Scripts/LevelGenerator.cs:400-406 | There is a grid, with a protected wall at the exit cell, on which the exit pattern reports success but places no exit. |
| Levels.AddRandomTilesSpec | Assets/Scripts/LevelGenerator.cs:343-349 | The fill keeps every protected cell. A cell ends Probabilistic iff it was drawn and not protected; every other cell is unchanged. |
| Levels.AddRandomTilesChanges | Assets/Scripts/LevelGenerator.cs:343-349 | The fill writes nothing but Probabilistic, changes only drawn cells, and changes at most as many cells as there are draws. |
| Levels.CreatePatternsSteps | Assets/Scripts/LevelGenerator.cs:321-337 | Grids that follow the spawn, exit and fill closed forms one after the other end exactly where CreatePatterns ends. |
| Levels.CreatePatternsKeeps | Assets/Scripts/LevelGenerator.cs:321-337 | Running the patterns in order keeps every protected cell of the grid they start from. |
| Levels.GenerateLevelBorder | Assets/Scripts/LevelGenerator.cs:291-308 | Whatever the draws, a generated level has the requested shape and its whole border is still ReservedUnbreakable. |
| Levels.LandmarkCell | Assets/Scripts/LevelGenerator.cs:321-337 | Take one cell that starts as neither Spawn nor Exit through the three patterns. It ends as Spawn iff the spawn pattern went ahead and this is the spawn cell, and it ends as Exit only at the exit cell. |
| Levels.GenerateLevelLandmarks | Assets/Scripts/LevelGenerator.cs:291-308 | A generated level holds a Spawn only at the drawn spawn cell, and an Exit only at the drawn exit cell in row 1. The spawn pattern succeeded iff the spawn cell holds Spawn. |
| Generator.LevelGenerator.constructor | Assets/Scripts/LevelGenerator.cs:53-58 | The first generation runs at the default size of 25 columns by 30 rows and yields Levels.GenerateLevel at that size. |
| Generator.LevelGenerator.PlaceTileType | Assets/Scripts/LevelGenerator.cs:252-278 | Returns true iff the cell was not reserved. Every cell is then what the write leaves it (ApplyWrite of its old value), and the array, its size and the dimensions are unchanged. |
| Generator.LevelGenerator.CreateBaseLevel | Assets/Scripts/LevelGenerator.cs:110-135 | After the nested loops, the grid equals Levels.BaseLevel for its size. |
| Generator.LevelGenerator.CreatePlayerSpawnPattern | Assets/Scripts/LevelGenerator.cs:360-398 | Returns true iff the column is in [1, w-2], the row is in [1, h-3], and neither target cell was reserved. On false the array is unchanged; on true every cell is as SpawnCell says of its old value. |
| Generator.LevelGenerator.CreateExitPattern | Assets/Scripts/LevelGenerator.cs:400-406 | Always returns true, and every cell is as ExitCell says of its old value. |
| Generator.LevelGenerator.AddRandomTiles | Assets/Scripts/LevelGenerator.cs:343-349 | After the loop over the first amountOfTiles draws, every cell is as FillCell says of those draws, and no draw at all is made when the amount is not positive. |
| Generator.LevelGenerator.CreatePatterns | Assets/Scripts/LevelGenerator.cs:321-337 | The grid after the three patterns equals Levels.CreatePatterns of the grid before. |
| Generator.LevelGenerator.GenerateLevel | Assets/Scripts/LevelGenerator.cs:291-308 | A fresh array of the requested size holds Levels.GenerateLevel of the draws, and the dimensions are the requested ones. |
| Generator.LevelGenerator.InstantiateLevel | Assets/Scripts/LevelGenerator.cs:154-229 | The classification made for every cell is InstanceOf of its tile and of the draw for that cell. |

## Left out

- Unity object handling is left out because it is engine calls: `Instantiate`, naming, `SetParent`, player activation and starting height in `InstantiateLevel`, and `ClearLevel`. `InstantiateLevel` is modelled as the array of objects it would create.
- `Debug.Log` and `PrintLevelGrid` are left out because they only produce output.
- Float geometry is left out: tile sizes from the collider, actual widths and heights, world positions and the ground offset.
- `Random.value` is an exact `real`, and the thresholds are the decimal constants. The source compares a `float` against `0.20f` and the other `float` literals, and that rounding is not modelled.
- `Random.Range` is left out; its results are parameters. At `:327` the spawn row is drawn with reversed bounds (`levelHeight - 3, levelHeight - 6`), whose result the engine defines. The model therefore takes any spawn row and lets the pattern's guards decide.
- The instancing pass draws `Random.value` only when it meets a Probabilistic tile, from one shared stream. The model gives each cell its own draw, which the other tiles ignore (`Tiles.InstanceDependsOnKindOnly`).
- `MakeFeasible` is an empty stub that is never called, so nothing about reachability is modelled.
- Before the first generation the C# `levelGrid` is null. The constructor models `Start`, which generates at the default size, so a `LevelGenerator` always has a grid.
- `GenerateLevel` takes `nat` dimensions. The C# array allocation throws on a negative size, and that exception is not modelled.
- `Generator.LevelGenerator.GenerateLevel` does not call `InstantiateLevel`. Its object creation is engine work; the classification it makes is `InstantiateLevel` here, a separate method.
- `PlayerController.cs`, `CameraController.cs` and `UIController.cs` are not part of this model. They are physics, camera and UI code.
