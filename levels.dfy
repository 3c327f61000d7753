/**
 * The level grid as a value: the guarded write, the base pass, the three
 * patterns and the whole generation, each as a function from the grid
 * before to the grid after. Random draws are arguments.
 */
module Levels {
  import opened Tiles

  /** Where the exit pattern is placed: just above the bottom border. */
  const ExitRow := 1
  /** How many random cells the fill pass tries. */
  const FillCount := 35

  /** A grid of width columns by height rows, indexed cells[column][row]. */
  datatype Level = Level(width: nat, height: nat, cells: seq<seq<TileType>>) {
    predicate Valid()
    {
      |cells| == width && forall c :: 0 <= c < |cells| ==> |cells[c]| == height
    }

    predicate InBounds(column: int, row: int)
    {
      0 <= column < width && 0 <= row < height
    }
  }

  /** A cell position, as drawn by the fill pass. */
  datatype Cell = Cell(column: int, row: int)

  /** One attempted write. */
  datatype Write = Write(column: int, row: int, tile: TileType)

  /** The outcome of a write or pattern: its success flag and the grid after. */
  datatype Placement = Placement(placed: bool, level: Level)

  predicate SameShape(a: Level, b: Level)
  {
    a.Valid() && b.Valid() && a.width == b.width && a.height == b.height
  }

  /** b has a's shape and every cell a protects still holds the same value. */
  predicate Keeps(a: Level, b: Level)
  {
    SameShape(a, b) &&
    forall c, r :: 0 <= c < a.width && 0 <= r < a.height && IsProtected(a.cells[c][r]) ==>
      b.cells[c][r] == a.cells[c][r]
  }

  /** b differs from a at most in cell (column, row). */
  predicate OnlyChanged(a: Level, b: Level, column: int, row: int)
  {
    SameShape(a, b) &&
    forall c, r :: 0 <= c < a.width && 0 <= r < a.height && (c != column || r != row) ==>
      b.cells[c][r] == a.cells[c][r]
  }

  /** Two grids of one shape that agree on every cell are equal. */
  lemma SameCells(a: Level, b: Level)
    requires SameShape(a, b)
    requires forall c, r :: 0 <= c < a.width && 0 <= r < a.height ==> a.cells[c][r] == b.cells[c][r]
    ensures a == b
  {
    assert forall c :: 0 <= c < a.width ==> a.cells[c] == b.cells[c];
  }

  lemma KeepsTransitive(a: Level, b: Level, c: Level)
    requires Keeps(a, b) && Keeps(b, c)
    ensures Keeps(a, c)
  {
  }

  /** The value a guarded write of tile leaves in a cell that held was. */
  function Guarded(was: TileType, tile: TileType): TileType
  {
    if IsProtected(was) then was else tile
  }

  /** The value cell (c, r), holding was, has after the write w. */
  function ApplyWrite(was: TileType, w: Write, c: int, r: int): TileType
  {
    if w.column == c && w.row == r && w.tile != TestValue then Guarded(was, w.tile) else was
  }

  /** The guarded write: refuses cells outside the grid and protected cells,
      and never writes the probe value. */
  function Place(lv: Level, column: int, row: int, tile: TileType): (p: Placement)
    requires lv.Valid()
    ensures SameShape(lv, p.level)
    ensures p.placed <==> lv.InBounds(column, row) && !IsProtected(lv.cells[column][row])
    ensures !p.placed || tile == TestValue ==> p.level == lv
    ensures p.placed && tile != TestValue ==> p.level.cells[column][row] == tile
  {
    if column >= lv.width || column < 0 || row >= lv.height || row < 0 then
      Placement(false, lv)
    else if IsProtected(lv.cells[column][row]) then
      Placement(false, lv)
    else if tile == TestValue then
      Placement(true, lv)
    else
      Placement(true, lv.(cells := lv.cells[column := lv.cells[column][row := tile]]))
  }

  /** The effect of one write on one cell. */
  lemma PlaceCell(lv: Level, column: int, row: int, tile: TileType, c: int, r: int)
    requires lv.Valid() && lv.InBounds(c, r)
    ensures Place(lv, column, row, tile).level.cells[c][r] == ApplyWrite(lv.cells[c][r], Write(column, row, tile), c, r)
  {
    if lv.InBounds(column, row) && !IsProtected(lv.cells[column][row]) && tile != TestValue {
      var updated := lv.cells[column := lv.cells[column][row := tile]];
      assert Place(lv, column, row, tile).level.cells == updated;
      if c == column {
        assert updated[c] == lv.cells[c][row := tile];
      } else {
        assert updated[c] == lv.cells[c];
      }
    }
  }

  /** A write changes at most its target cell and never a protected one. */
  lemma PlaceFrame(lv: Level, column: int, row: int, tile: TileType)
    requires lv.Valid()
    ensures OnlyChanged(lv, Place(lv, column, row, tile).level, column, row)
    ensures Keeps(lv, Place(lv, column, row, tile).level)
  {
  }

  /** The reservation query is the probe write, negated. */
  function IsReserved(lv: Level, column: int, row: int): (reserved: bool)
    requires lv.Valid()
    ensures reserved <==> !lv.InBounds(column, row) || IsProtected(lv.cells[column][row])
    ensures Place(lv, column, row, TestValue).level == lv
  {
    !Place(lv, column, row, TestValue).placed
  }

  /** Any sequence of guarded writes, in order. */
  function PlaceAll(lv: Level, writes: seq<Write>): (after: Level)
    requires lv.Valid()
    ensures SameShape(lv, after)
    decreases |writes|
  {
    if writes == [] then lv
    else
      var w := writes[0];
      PlaceAll(Place(lv, w.column, w.row, w.tile).level, writes[1..])
  }

  /** Whatever writes follow, a protected cell keeps its value. */
  lemma {:induction false} PlaceAllKeeps(lv: Level, writes: seq<Write>)
    requires lv.Valid()
    ensures Keeps(lv, PlaceAll(lv, writes))
    decreases |writes|
  {
    if writes != [] {
      var w := writes[0];
      var next := Place(lv, w.column, w.row, w.tile).level;
      PlaceFrame(lv, w.column, w.row, w.tile);
      PlaceAllKeeps(next, writes[1..]);
      KeepsTransitive(lv, next, PlaceAll(lv, writes));
    }
  }

  /** After any writes, a cell that was protected still refuses every write. */
  lemma PlaceAllProtectedCell(lv: Level, writes: seq<Write>, column: int, row: int)
    requires lv.Valid() && lv.InBounds(column, row) && IsProtected(lv.cells[column][row])
    ensures PlaceAll(lv, writes).cells[column][row] == lv.cells[column][row]
    ensures forall t :: !Place(PlaceAll(lv, writes), column, row, t).placed
  {
    PlaceAllKeeps(lv, writes);
  }

  /** The value cell (c, r), holding was, has after the writes, in order. */
  function WriteCell(was: TileType, writes: seq<Write>, c: int, r: int): TileType
    decreases |writes|
  {
    if writes == [] then was else WriteCell(ApplyWrite(was, writes[0], c, r), writes[1..], c, r)
  }

  lemma WriteCellDrop(was: TileType, writes: seq<Write>, k: int, c: int, r: int)
    requires 0 <= k < |writes|
    ensures WriteCell(was, writes[k..], c, r) == WriteCell(ApplyWrite(was, writes[k], c, r), writes[k + 1..], c, r)
  {
    assert writes[k..][1..] == writes[k + 1..];
  }

  /** A sequence of writes acts on each cell independently. */
  lemma {:induction false} PlaceAllCell(lv: Level, writes: seq<Write>, c: int, r: int)
    requires lv.Valid() && lv.InBounds(c, r)
    ensures PlaceAll(lv, writes).cells[c][r] == WriteCell(lv.cells[c][r], writes, c, r)
    decreases |writes|
  {
    if writes != [] {
      var w := writes[0];
      PlaceCell(lv, w.column, w.row, w.tile, c, r);
      PlaceAllCell(Place(lv, w.column, w.row, w.tile).level, writes[1..], c, r);
    }
  }

  /** The base pass's choice for one cell. */
  function BaseTile(width: int, height: int, column: int, row: int): TileType
  {
    if column == 0 || column == width - 1 then ReservedUnbreakable
    else if row == 0 || row == height - 1 then ReservedUnbreakable
    else Empty
  }

  predicate OnBorder(width: int, height: int, column: int, row: int)
  {
    column == 0 || column == width - 1 || row == 0 || row == height - 1
  }

  /** The base pass: a border of unbreakable walls around an empty interior. */
  function BaseLevel(width: nat, height: nat): (lv: Level)
    ensures lv.Valid() && lv.width == width && lv.height == height
    ensures forall c, r :: 0 <= c < width && 0 <= r < height ==>
      (lv.cells[c][r] == ReservedUnbreakable <==> OnBorder(width, height, c, r)) &&
      (lv.cells[c][r] == Empty <==> !OnBorder(width, height, c, r))
  {
    Level(width, height, seq(width, c => seq(height, r => BaseTile(width, height, c, r))))
  }

  /** The spawn structure: the spawn tile, a floor and two side walls, and
      three cells of clearance above. */
  function SpawnPattern(lv: Level, column: int, row: int): (p: Placement)
    requires lv.Valid()
  {
    if column <= 0 || column >= lv.width - 1 then Placement(false, lv)
    else if row <= 0 || row >= lv.height - 2 then Placement(false, lv)
    else if IsReserved(lv, column, row) || IsReserved(lv, column, row - 1) then Placement(false, lv)
    else
      Placement(true, PlaceAll(lv, SpawnWrites(column, row)))
  }

  /** The nine writes of the spawn pattern, in the order they are made. */
  function SpawnWrites(column: int, row: int): seq<Write>
  {
    [Write(column, row, Spawn), Write(column, row - 1, ReservedWall),
     Write(column - 1, row - 1, ReservedWall), Write(column + 1, row - 1, ReservedWall),
     Write(column - 1, row, ReservedWall), Write(column + 1, row, ReservedWall),
     Write(column - 1, row + 1, ReservedEmpty), Write(column, row + 1, ReservedEmpty),
     Write(column + 1, row + 1, ReservedEmpty)]
  }

  /** Reference value of cell (c, r), which held was, after a successful
      spawn pattern at (column, row). */
  function SpawnCell(was: TileType, column: int, row: int, c: int, r: int): TileType
  {
    if c == column && r == row then Spawn
    else if c == column && r == row - 1 then ReservedWall
    else if column - 1 <= c <= column + 1 && row - 1 <= r <= row then Guarded(was, ReservedWall)
    else if column - 1 <= c <= column + 1 && r == row + 1 then Guarded(was, ReservedEmpty)
    else was
  }

  /** When the spawn pattern goes ahead: inside the frame, with the spawn
      cell and the cell below it both free. */
  predicate SpawnFits(lv: Level, column: int, row: int)
    requires lv.Valid()
  {
    1 <= column <= lv.width - 2 && 1 <= row <= lv.height - 3
    && !IsReserved(lv, column, row) && !IsReserved(lv, column, row - 1)
  }

  /** The nine writes of the spawn pattern, in order, take cell (c, r)
      through t0, t1, ..., t9; it ends as SpawnCell says, provided the spawn
      cell and the cell below it were free. */
  lemma SpawnWritesCell(t0: TileType, t1: TileType, t2: TileType, t3: TileType, t4: TileType,
                        t5: TileType, t6: TileType, t7: TileType, t8: TileType, t9: TileType,
                        column: int, row: int, c: int, r: int)
    requires t1 == ApplyWrite(t0, Write(column, row, Spawn), c, r)
    requires t2 == ApplyWrite(t1, Write(column, row - 1, ReservedWall), c, r)
    requires t3 == ApplyWrite(t2, Write(column - 1, row - 1, ReservedWall), c, r)
    requires t4 == ApplyWrite(t3, Write(column + 1, row - 1, ReservedWall), c, r)
    requires t5 == ApplyWrite(t4, Write(column - 1, row, ReservedWall), c, r)
    requires t6 == ApplyWrite(t5, Write(column + 1, row, ReservedWall), c, r)
    requires t7 == ApplyWrite(t6, Write(column - 1, row + 1, ReservedEmpty), c, r)
    requires t8 == ApplyWrite(t7, Write(column, row + 1, ReservedEmpty), c, r)
    requires t9 == ApplyWrite(t8, Write(column + 1, row + 1, ReservedEmpty), c, r)
    requires c == column && (r == row || r == row - 1) ==> !IsProtected(t0)
    ensures t9 == SpawnCell(t0, column, row, c, r)
  {
  }

  /** The nine writes, one cell at a time: cell (c, r) goes through the
      values t1, ..., t9 that SpawnWritesCell expects. */
  lemma SpawnWritesSteps(t0: TileType, column: int, row: int, c: int, r: int)
    ensures var t1 := ApplyWrite(t0, Write(column, row, Spawn), c, r);
      var t2 := ApplyWrite(t1, Write(column, row - 1, ReservedWall), c, r);
      var t3 := ApplyWrite(t2, Write(column - 1, row - 1, ReservedWall), c, r);
      var t4 := ApplyWrite(t3, Write(column + 1, row - 1, ReservedWall), c, r);
      var t5 := ApplyWrite(t4, Write(column - 1, row, ReservedWall), c, r);
      var t6 := ApplyWrite(t5, Write(column + 1, row, ReservedWall), c, r);
      var t7 := ApplyWrite(t6, Write(column - 1, row + 1, ReservedEmpty), c, r);
      var t8 := ApplyWrite(t7, Write(column, row + 1, ReservedEmpty), c, r);
      var t9 := ApplyWrite(t8, Write(column + 1, row + 1, ReservedEmpty), c, r);
      WriteCell(t0, SpawnWrites(column, row), c, r) == t9
  {
    var ws := SpawnWrites(column, row);
    var t1 := ApplyWrite(t0, ws[0], c, r);
    var t2 := ApplyWrite(t1, ws[1], c, r);
    var t3 := ApplyWrite(t2, ws[2], c, r);
    var t4 := ApplyWrite(t3, ws[3], c, r);
    var t5 := ApplyWrite(t4, ws[4], c, r);
    var t6 := ApplyWrite(t5, ws[5], c, r);
    var t7 := ApplyWrite(t6, ws[6], c, r);
    var t8 := ApplyWrite(t7, ws[7], c, r);
    assert ws[0..] == ws;
    WriteCellDrop(t0, ws, 0, c, r);
    WriteCellDrop(t1, ws, 1, c, r);
    WriteCellDrop(t2, ws, 2, c, r);
    WriteCellDrop(t3, ws, 3, c, r);
    WriteCellDrop(t4, ws, 4, c, r);
    WriteCellDrop(t5, ws, 5, c, r);
    WriteCellDrop(t6, ws, 6, c, r);
    WriteCellDrop(t7, ws, 7, c, r);
    WriteCellDrop(t8, ws, 8, c, r);
    assert ws[9..] == [];
  }

  lemma SpawnWritesChain(t0: TileType, column: int, row: int, c: int, r: int)
    requires c == column && (r == row || r == row - 1) ==> !IsProtected(t0)
    ensures WriteCell(t0, SpawnWrites(column, row), c, r) == SpawnCell(t0, column, row, c, r)
  {
    SpawnWritesSteps(t0, column, row, c, r);
    var t1 := ApplyWrite(t0, Write(column, row, Spawn), c, r);
    var t2 := ApplyWrite(t1, Write(column, row - 1, ReservedWall), c, r);
    var t3 := ApplyWrite(t2, Write(column - 1, row - 1, ReservedWall), c, r);
    var t4 := ApplyWrite(t3, Write(column + 1, row - 1, ReservedWall), c, r);
    var t5 := ApplyWrite(t4, Write(column - 1, row, ReservedWall), c, r);
    var t6 := ApplyWrite(t5, Write(column + 1, row, ReservedWall), c, r);
    var t7 := ApplyWrite(t6, Write(column - 1, row + 1, ReservedEmpty), c, r);
    var t8 := ApplyWrite(t7, Write(column, row + 1, ReservedEmpty), c, r);
    var t9 := ApplyWrite(t8, Write(column + 1, row + 1, ReservedEmpty), c, r);
    SpawnWritesCell(t0, t1, t2, t3, t4, t5, t6, t7, t8, t9, column, row, c, r);
  }

  lemma SpawnPatternCells(lv: Level, column: int, row: int)
    requires lv.Valid() && SpawnFits(lv, column, row)
    ensures SameShape(lv, SpawnPattern(lv, column, row).level)
    ensures forall c, r :: 0 <= c < lv.width && 0 <= r < lv.height ==>
      SpawnPattern(lv, column, row).level.cells[c][r] == SpawnCell(lv.cells[c][r], column, row, c, r)
  {
    var after := PlaceAll(lv, SpawnWrites(column, row));
    assert SpawnPattern(lv, column, row).level == after;
    forall c, r | 0 <= c < lv.width && 0 <= r < lv.height
      ensures after.cells[c][r] == SpawnCell(lv.cells[c][r], column, row, c, r)
    {
      PlaceAllCell(lv, SpawnWrites(column, row), c, r);
      SpawnWritesChain(lv.cells[c][r], column, row, c, r);
    }
  }

  /** The spawn pattern either refuses and changes nothing, or places the
      spawn on its floor and leaves every cell as SpawnCell says; either way
      no protected cell changes. */
  lemma SpawnPatternSpec(lv: Level, column: int, row: int)
    requires lv.Valid()
    ensures Keeps(lv, SpawnPattern(lv, column, row).level)
    ensures SpawnPattern(lv, column, row).placed <==> SpawnFits(lv, column, row)
    ensures !SpawnFits(lv, column, row) ==> SpawnPattern(lv, column, row).level == lv
    ensures SpawnFits(lv, column, row) ==>
      var after := SpawnPattern(lv, column, row).level;
      after.cells[column][row] == Spawn && after.cells[column][row - 1] == ReservedWall &&
      forall c, r :: 0 <= c < lv.width && 0 <= r < lv.height ==>
        after.cells[c][r] == SpawnCell(lv.cells[c][r], column, row, c, r)
    ensures forall c, r ::
      0 <= c < lv.width && 0 <= r < lv.height && SpawnPattern(lv, column, row).level.cells[c][r] != lv.cells[c][r]
      ==> column - 1 <= c <= column + 1 && row - 1 <= r <= row + 1
  {
    if SpawnFits(lv, column, row) {
      PlaceAllKeeps(lv, SpawnWrites(column, row));
      SpawnPatternCells(lv, column, row);
      var after := SpawnPattern(lv, column, row).level;
      assert after.cells[column][row] == SpawnCell(lv.cells[column][row], column, row, column, row);
      assert after.cells[column][row - 1] == SpawnCell(lv.cells[column][row - 1], column, row, column, row - 1);
    }
  }

  /** The exit with a plant on either side; always reports success. */
  function ExitPattern(lv: Level, column: int, row: int): (p: Placement)
    requires lv.Valid()
  {
    var l1 := Place(lv, column, row, Exit).level;
    var l2 := Place(l1, column - 1, row, Plant).level;
    var l3 := Place(l2, column + 1, row, Plant).level;
    Placement(true, l3)
  }

  /** Reference value of cell (c, r), which held was, after the exit
      pattern at (column, row). */
  function ExitCell(was: TileType, column: int, row: int, c: int, r: int): TileType
  {
    if c == column && r == row then Guarded(was, Exit)
    else if (c == column - 1 || c == column + 1) && r == row then Guarded(was, Plant)
    else was
  }

  lemma ExitPatternSpec(lv: Level, column: int, row: int)
    requires lv.Valid()
    ensures ExitPattern(lv, column, row).placed
    ensures Keeps(lv, ExitPattern(lv, column, row).level)
    ensures forall c, r :: 0 <= c < lv.width && 0 <= r < lv.height ==>
      ExitPattern(lv, column, row).level.cells[c][r] == ExitCell(lv.cells[c][r], column, row, c, r)
    ensures forall c, r ::
      0 <= c < lv.width && 0 <= r < lv.height && ExitPattern(lv, column, row).level.cells[c][r] != lv.cells[c][r]
      ==> r == row && column - 1 <= c <= column + 1
  {
    var l1 := Place(lv, column, row, Exit).level;
    var l2 := Place(l1, column - 1, row, Plant).level;
    var l3 := Place(l2, column + 1, row, Plant).level;
    forall c, r | 0 <= c < lv.width && 0 <= r < lv.height
      ensures l3.cells[c][r] == ExitCell(lv.cells[c][r], column, row, c, r)
    {
      PlaceCell(lv, column, row, Exit, c, r);
      PlaceCell(l1, column - 1, row, Plant, c, r);
      PlaceCell(l2, column + 1, row, Plant, c, r);
    }
  }

  /** The exit pattern can report success without placing the exit: its
      target cell may already be protected, here by a spawn floor. */
  lemma ExitPatternMayMissExit()
    ensures var lv := Level(3, 3, [[Empty, Empty, Empty], [Empty, ReservedWall, Empty], [Empty, Empty, Empty]]);
      ExitPattern(lv, 1, ExitRow).placed && ExitPattern(lv, 1, ExitRow).level.cells[1][ExitRow] != Exit
  {
    var lv := Level(3, 3, [[Empty, Empty, Empty], [Empty, ReservedWall, Empty], [Empty, Empty, Empty]]);
    ExitPatternSpec(lv, 1, ExitRow);
  }

  /** The random fill: one guarded Probabilistic write per drawn cell. */
  function AddRandomTiles(lv: Level, draws: seq<Cell>): (after: Level)
    requires lv.Valid()
    ensures SameShape(lv, after)
    decreases |draws|
  {
    if draws == [] then lv
    else
      var d := draws[|draws| - 1];
      Place(AddRandomTiles(lv, draws[..|draws| - 1]), d.column, d.row, Probabilistic).level
  }

  /** Reference value of cell (c, r), which held was, after the fill. */
  function FillCell(was: TileType, draws: seq<Cell>, c: int, r: int): TileType
  {
    if Cell(c, r) in draws then Guarded(was, Probabilistic) else was
  }

  lemma {:induction false} AddRandomTilesSpec(lv: Level, draws: seq<Cell>)
    requires lv.Valid()
    ensures Keeps(lv, AddRandomTiles(lv, draws))
    ensures forall c, r :: 0 <= c < lv.width && 0 <= r < lv.height ==>
      AddRandomTiles(lv, draws).cells[c][r] == FillCell(lv.cells[c][r], draws, c, r)
    decreases |draws|
  {
    if draws != [] {
      var front := draws[..|draws| - 1];
      var d := draws[|draws| - 1];
      AddRandomTilesSpec(lv, front);
      var mid := AddRandomTiles(lv, front);
      assert draws == front + [d];
      forall c, r | 0 <= c < lv.width && 0 <= r < lv.height
        ensures AddRandomTiles(lv, draws).cells[c][r] == FillCell(lv.cells[c][r], draws, c, r)
      {
        PlaceCell(mid, d.column, d.row, Probabilistic, c, r);
        assert Cell(c, r) in draws <==> Cell(c, r) in front || Cell(c, r) == d;
      }
    }
  }

  /** The fill writes nothing but Probabilistic, changes only drawn cells,
      and so changes at most as many cells as there are draws. */
  lemma AddRandomTilesChanges(lv: Level, draws: seq<Cell>)
    requires lv.Valid()
    ensures forall c, r :: 0 <= c < lv.width && 0 <= r < lv.height ==>
      var t := AddRandomTiles(lv, draws).cells[c][r];
      t == lv.cells[c][r] || (t == Probabilistic && Cell(c, r) in draws)
    ensures |Changed(lv, AddRandomTiles(lv, draws))| <= |draws|
  {
    AddRandomTilesSpec(lv, draws);
    var after := AddRandomTiles(lv, draws);
    assert Changed(lv, after) <= set k | 0 <= k < |draws| :: draws[k];
    ImageSize(draws);
    SubsetSize(Changed(lv, after), set k | 0 <= k < |draws| :: draws[k]);
  }

  /** The cells in which b differs from a. */
  function Changed(a: Level, b: Level): set<Cell>
    requires SameShape(a, b)
  {
    set c, r | 0 <= c < a.width && 0 <= r < a.height && b.cells[c][r] != a.cells[c][r] :: Cell(c, r)
  }

  lemma {:induction false} ImageSize(s: seq<Cell>)
    ensures |set k | 0 <= k < |s| :: s[k]| <= |s|
  {
    if s != [] {
      var front := s[..|s| - 1];
      ImageSize(front);
      var a := set k | 0 <= k < |front| :: front[k];
      var b := set k | 0 <= k < |s| :: s[k];
      assert b == a + {s[|s| - 1]} by {
        forall x | x in b ensures x in a + {s[|s| - 1]} {
          var k :| 0 <= k < |s| && s[k] == x;
          if k < |front| { assert front[k] == x; }
        }
        forall x | x in a ensures x in b {
          var k :| 0 <= k < |front| && front[k] == x;
          assert s[k] == x;
        }
      }
    }
  }

  lemma SubsetSize(a: set<Cell>, b: set<Cell>)
    requires a <= b
    ensures |a| <= |b|
  {
    assert b == a + (b - a);
  }

  /** The fixed pattern order: spawn, exit, then the random fill. */
  function CreatePatterns(lv: Level, spawnColumn: int, spawnRow: int, exitColumn: int, fill: seq<Cell>): Level
    requires lv.Valid() && |fill| == FillCount
  {
    var spawned := SpawnPattern(lv, spawnColumn, spawnRow).level;
    var exited := ExitPattern(spawned, exitColumn, ExitRow).level;
    AddRandomTiles(exited, fill)
  }

  /** Grids that match the closed forms of the three patterns, one after
      the other, end where CreatePatterns ends. */
  lemma CreatePatternsSteps(lv: Level, spawnColumn: int, spawnRow: int, exitColumn: int, fill: seq<Cell>,
                            spawned: Level, exited: Level, filled: Level)
    requires lv.Valid() && |fill| == FillCount
    requires SameShape(lv, spawned) && SameShape(lv, exited) && SameShape(lv, filled)
    requires !SpawnFits(lv, spawnColumn, spawnRow) ==> spawned == lv
    requires SpawnFits(lv, spawnColumn, spawnRow) ==>
      forall c, r :: 0 <= c < lv.width && 0 <= r < lv.height ==>
        spawned.cells[c][r] == SpawnCell(lv.cells[c][r], spawnColumn, spawnRow, c, r)
    requires forall c, r :: 0 <= c < lv.width && 0 <= r < lv.height ==>
      exited.cells[c][r] == ExitCell(spawned.cells[c][r], exitColumn, ExitRow, c, r)
    requires forall c, r :: 0 <= c < lv.width && 0 <= r < lv.height ==>
      filled.cells[c][r] == FillCell(exited.cells[c][r], fill, c, r)
    ensures filled == CreatePatterns(lv, spawnColumn, spawnRow, exitColumn, fill)
  {
    SpawnPatternSpec(lv, spawnColumn, spawnRow);
    SameCells(spawned, SpawnPattern(lv, spawnColumn, spawnRow).level);
    ExitPatternSpec(spawned, exitColumn, ExitRow);
    SameCells(exited, ExitPattern(spawned, exitColumn, ExitRow).level);
    AddRandomTilesSpec(exited, fill);
    SameCells(filled, AddRandomTiles(exited, fill));
  }

  /** A fresh width by height level: the base pass, then the patterns. */
  function GenerateLevel(width: nat, height: nat, spawnColumn: int, spawnRow: int, exitColumn: int, fill: seq<Cell>): Level
    requires |fill| == FillCount
  {
    CreatePatterns(BaseLevel(width, height), spawnColumn, spawnRow, exitColumn, fill)
  }

  lemma CreatePatternsKeeps(lv: Level, spawnColumn: int, spawnRow: int, exitColumn: int, fill: seq<Cell>)
    requires lv.Valid() && |fill| == FillCount
    ensures Keeps(lv, CreatePatterns(lv, spawnColumn, spawnRow, exitColumn, fill))
  {
    var spawned := SpawnPattern(lv, spawnColumn, spawnRow).level;
    var exited := ExitPattern(spawned, exitColumn, ExitRow).level;
    SpawnPatternSpec(lv, spawnColumn, spawnRow);
    ExitPatternSpec(spawned, exitColumn, ExitRow);
    AddRandomTilesSpec(exited, fill);
    KeepsTransitive(lv, spawned, exited);
    KeepsTransitive(lv, exited, AddRandomTiles(exited, fill));
  }

  /** Whatever the draws, a generated level is width by height and its
      border is still all unbreakable wall. */
  lemma GenerateLevelBorder(width: nat, height: nat, spawnColumn: int, spawnRow: int, exitColumn: int, fill: seq<Cell>)
    requires |fill| == FillCount
    ensures var lv := GenerateLevel(width, height, spawnColumn, spawnRow, exitColumn, fill);
      lv.Valid() && lv.width == width && lv.height == height &&
      forall c, r :: 0 <= c < width && 0 <= r < height && OnBorder(width, height, c, r) ==>
        lv.cells[c][r] == ReservedUnbreakable
  {
    CreatePatternsKeeps(BaseLevel(width, height), spawnColumn, spawnRow, exitColumn, fill);
  }

  /** One cell through the three patterns, starting from a tile that is
      neither a spawn nor an exit: it ends as a spawn only at the spawn cell
      of a pattern that went ahead, and as an exit only at the exit cell. */
  lemma LandmarkCell(was: TileType, fits: bool, spawnColumn: int, spawnRow: int, exitColumn: int,
                     fill: seq<Cell>, c: int, r: int)
    requires was != Spawn && was != Exit
    ensures var spawned := if fits then SpawnCell(was, spawnColumn, spawnRow, c, r) else was;
      var t := FillCell(ExitCell(spawned, exitColumn, ExitRow, c, r), fill, c, r);
      (t == Spawn <==> fits && c == spawnColumn && r == spawnRow) &&
      (t == Exit ==> c == exitColumn && r == ExitRow)
  {
  }

  /** A generated level holds at most one spawn, at the drawn spawn cell and
      exactly when the spawn pattern succeeded, and at most one exit, at the
      drawn exit cell. */
  lemma GenerateLevelLandmarks(width: nat, height: nat, spawnColumn: int, spawnRow: int, exitColumn: int, fill: seq<Cell>)
    requires |fill| == FillCount
    ensures var lv := GenerateLevel(width, height, spawnColumn, spawnRow, exitColumn, fill);
      lv.Valid() && lv.width == width && lv.height == height &&
      (forall c, r :: 0 <= c < width && 0 <= r < height && lv.cells[c][r] == Spawn ==>
        c == spawnColumn && r == spawnRow) &&
      (forall c, r :: 0 <= c < width && 0 <= r < height && lv.cells[c][r] == Exit ==>
        c == exitColumn && r == ExitRow) &&
      (SpawnPattern(BaseLevel(width, height), spawnColumn, spawnRow).placed <==>
        lv.InBounds(spawnColumn, spawnRow) && lv.cells[spawnColumn][spawnRow] == Spawn)
  {
    var base := BaseLevel(width, height);
    var fits := SpawnFits(base, spawnColumn, spawnRow);
    var spawned := SpawnPattern(base, spawnColumn, spawnRow).level;
    var exited := ExitPattern(spawned, exitColumn, ExitRow).level;
    var lv := AddRandomTiles(exited, fill);
    assert lv == GenerateLevel(width, height, spawnColumn, spawnRow, exitColumn, fill);
    SpawnPatternSpec(base, spawnColumn, spawnRow);
    ExitPatternSpec(spawned, exitColumn, ExitRow);
    AddRandomTilesSpec(exited, fill);
    forall c, r | 0 <= c < width && 0 <= r < height
      ensures lv.cells[c][r] == Spawn <==> fits && c == spawnColumn && r == spawnRow
      ensures lv.cells[c][r] == Exit ==> c == exitColumn && r == ExitRow
    {
      LandmarkCell(base.cells[c][r], fits, spawnColumn, spawnRow, exitColumn, fill, c, r);
    }
  }
}
