/** The older cell model: each cell records its coordinates and a life
    string ('ally', 'enemy', 'barr' or 'none'); a brush toggles between the
    two sides; the whole grid can be created, randomized and cleared.
    Cells are values here, not document nodes. */
module LegacyGrid {
  import opened Wrappers
  import opened Scan

  const AllyLife := "ally"
  const EnemyLife := "enemy"
  const BarricadeLife := "barr"
  const NoLife := "none"

  /** A cell: the coordinates it records and its life attribute, which may be missing. */
  datatype Tile = Tile(x: int, y: int, life: Option<string>)

  /** isCellAlive: there is a cell, its life is present and non-empty, and it is not 'none'. */
  predicate IsCellAlive(cell: Option<Tile>) {
    && cell.Some?
    && cell.value.life.Some?
    && cell.value.life.value != ""
    && cell.value.life.value != NoLife
  }

  /** giveLife: the life becomes `life`; the coordinates stay. */
  function GiveLife(cell: Tile, life: string): (r: Tile)
    ensures r.x == cell.x && r.y == cell.y && r.life == Some(life)
  {
    cell.(life := Some(life))
  }

  /** takeLife: the life becomes 'none'; the coordinates stay. */
  function TakeLife(cell: Tile): (r: Tile)
    ensures r.x == cell.x && r.y == cell.y && r.life == Some(NoLife)
    ensures !IsCellAlive(Some(r))
  {
    cell.(life := Some(NoLife))
  }

  /** giveLife brings a cell to life exactly when the new life is neither empty nor 'none'. */
  lemma GiveLifeAlive(cell: Tile, life: string)
    ensures IsCellAlive(Some(GiveLife(cell, life))) <==> life != "" && life != NoLife
  {
  }

  /** Either side's paint brings a cell to life. */
  lemma SidesAreAlive(cell: Tile)
    ensures IsCellAlive(Some(GiveLife(cell, AllyLife)))
    ensures IsCellAlive(Some(GiveLife(cell, EnemyLife)))
    ensures IsCellAlive(Some(GiveLife(cell, BarricadeLife)))
  {
  }

  /** createGrid: `height` rows of `width` dead cells, each recording its own coordinates. */
  method CreateGrid(width: nat, height: nat) returns (grid: array2<Tile>)
    ensures fresh(grid)
    ensures grid.Length0 == height && grid.Length1 == width
    ensures forall y, x :: 0 <= y < height && 0 <= x < width ==>
      grid[y, x] == Tile(x, y, Some(NoLife)) && !IsCellAlive(Some(grid[y, x]))
  {
    grid := new Tile[height, width];
    for y := 0 to height
      invariant forall yy, xx :: 0 <= yy < y && 0 <= xx < width ==> grid[yy, xx] == Tile(xx, yy, Some(NoLife))
    {
      for x := 0 to width
        invariant forall yy, xx :: 0 <= yy < y && 0 <= xx < width ==> grid[yy, xx] == Tile(xx, yy, Some(NoLife))
        invariant forall xx :: 0 <= xx < x ==> grid[y, xx] == Tile(xx, y, Some(NoLife))
      {
        var cell := TakeLife(Tile(0, 0, None));
        cell := cell.(x := x, y := y);
        grid[y, x] := cell;
      }
    }
  }

  // ---------------------------------------------------------------------------
  // The brush

  const DrawMode := "draw"
  const EraseMode := "erase"

  /** swapPaint: 'ally' becomes 'enemy', anything else becomes 'ally'. */
  function SwappedColor(color: string): (r: string)
    ensures r == AllyLife || r == EnemyLife
    ensures r == EnemyLife <==> color == AllyLife
  {
    if color == AllyLife then EnemyLife else AllyLife
  }

  /** Two swaps restore either side's colour. */
  lemma SwapTwice(color: string)
    requires color == AllyLife || color == EnemyLife
    ensures SwappedColor(SwappedColor(color)) == color
  {
  }

  /** The cell after brushCell: draw mode gives it the brush colour, erase
      mode kills it only if it is alive, any other mode leaves it. */
  function Brushed(mode: string, color: string, cell: Tile): Tile {
    if mode == DrawMode then GiveLife(cell, color)
    else if mode == EraseMode && IsCellAlive(Some(cell)) then TakeLife(cell)
    else cell
  }

  /** Drawing with either side brings the cell to life; erasing leaves it dead,
      and leaves an already dead cell exactly as it was; other modes change nothing;
      the coordinates never change. */
  lemma BrushedCell(mode: string, color: string, cell: Tile)
    ensures var r := Brushed(mode, color, cell);
      && r.x == cell.x && r.y == cell.y
      && (mode == DrawMode ==> r.life == Some(color))
      && (mode == DrawMode && (color == AllyLife || color == EnemyLife) ==> IsCellAlive(Some(r)))
      && (mode == EraseMode ==> !IsCellAlive(Some(r)))
      && (mode == EraseMode && !IsCellAlive(Some(cell)) ==> r == cell)
      && (mode != DrawMode && mode != EraseMode ==> r == cell)
  {
  }

  /** The brush: its mode and the life string it paints. */
  class LegacyBrush {
    var mode: string
    var color: string

    constructor ()
      ensures mode == DrawMode && color == AllyLife
    {
      mode := DrawMode;
      color := AllyLife;
    }

    method SwapPaint()
      modifies this
      ensures color == SwappedColor(old(color)) && mode == old(mode)
    {
      if color == AllyLife {
        color := EnemyLife;
      } else {
        color := AllyLife;
      }
    }

    /** brushCell on the cell at (x, y); no other cell changes. */
    method BrushCell(grid: array2<Tile>, x: int, y: int)
      requires 0 <= y < grid.Length0 && 0 <= x < grid.Length1
      modifies grid
      ensures grid[y, x] == Brushed(mode, color, old(grid[y, x]))
      ensures forall yy, xx :: 0 <= yy < grid.Length0 && 0 <= xx < grid.Length1 && (yy != y || xx != x) ==>
        grid[yy, xx] == old(grid[yy, xx])
    {
      var alive := IsCellAlive(Some(grid[y, x]));
      if mode == DrawMode {
        grid[y, x] := GiveLife(grid[y, x], color);
      } else if mode == EraseMode && alive {
        grid[y, x] := TakeLife(grid[y, x]);
      }
    }
  }

  // ---------------------------------------------------------------------------
  // randomizeGrid and clearGrid

  /** One cell of randomizeGrid: the first sample picks the side ('ally'
      below 0.5), the second gives it life when below the coverage, else kills it. */
  function RandomTile(cell: Tile, sideSample: real, coverSample: real, coverage: real): (r: Tile)
    ensures r.x == cell.x && r.y == cell.y
    ensures r.life == Some(AllyLife) || r.life == Some(EnemyLife) || r.life == Some(NoLife)
    ensures IsCellAlive(Some(r)) <==> coverSample < coverage
    ensures r.life == Some(AllyLife) <==> coverSample < coverage && sideSample < 0.5
  {
    var paint := if sideSample < 0.5 then AllyLife else EnemyLife;
    if coverSample < coverage then GiveLife(cell, paint) else TakeLife(cell)
  }

  /** Two samples per cell. */
  predicate EnoughGridSamples(g: seq<seq<Tile>>, samples: seq<real>) {
    2 * CountRows(g, Always) <= |samples|
  }

  function RandomCell(g: seq<seq<Tile>>, samples: seq<real>, coverage: real, x: int, y: int): Tile
    requires InGrid(g, x, y) && EnoughGridSamples(g, samples)
  {
    var k := Before(g, x, y, Always);
    assert 2 * k + 1 < |samples| by { BeforeBelowTotal(g, x, y, Always); }
    RandomTile(g[y][x], samples[2 * k], samples[2 * k + 1], coverage)
  }

  function RandomizedGrid(g: seq<seq<Tile>>, samples: seq<real>, coverage: real): (r: seq<seq<Tile>>)
    requires EnoughGridSamples(g, samples)
    ensures |r| == |g| && forall y :: 0 <= y < |g| ==> |r[y]| == |g[y]|
  {
    seq(|g|, y requires 0 <= y < |g| =>
      seq(|g[y]|, x requires 0 <= x < |g[y]| => RandomCell(g, samples, coverage, x, y)))
  }

  /** The cell at (x, y) draws the next two samples of the scan. */
  lemma RandomStep(g: seq<seq<Tile>>, samples: seq<real>, coverage: real, x: int, y: int)
    requires InGrid(g, x, y) && EnoughGridSamples(g, samples)
    ensures Before(g, x + 1, y, Always) == Before(g, x, y, Always) + 1
    ensures 2 * Before(g, x, y, Always) + 1 < |samples|
    ensures var k := Before(g, x, y, Always);
      RandomCell(g, samples, coverage, x, y) == RandomTile(g[y][x], samples[2 * k], samples[2 * k + 1], coverage)
  {
    BeforeStep(g, x, y, Always);
    BeforeBelowTotal(g, x, y, Always);
  }

  /** randomizeGrid: returns the number of samples drawn, two per cell. */
  method RandomizeGrid(grid: array2<Tile>, coverage: real, samples: seq<real>) returns (used: nat)
    requires EnoughGridSamples(Snapshot(grid), samples)
    modifies grid
    ensures used == 2 * CountRows(old(Snapshot(grid)), Always)
    ensures Snapshot(grid) == RandomizedGrid(old(Snapshot(grid)), samples, coverage)
  {
    ghost var g := Snapshot(grid);
    assert |g| == grid.Length0 && forall r :: 0 <= r < |g| ==> |g[r]| == grid.Length1;
    used := 0;
    for y := 0 to grid.Length0
      invariant used == 2 * CountRows(g[..y], Always)
      invariant forall yy, xx :: 0 <= yy < grid.Length0 && 0 <= xx < grid.Length1 ==>
        grid[yy, xx] == if yy < y then RandomCell(g, samples, coverage, xx, yy) else g[yy][xx]
    {
      BeforeAlways(g, grid.Length1, y);
      BeforeRowEnd(g, y, Always);
      CountRowsPrefix(g, y + 1, Always);
      RowCells(g, samples, coverage, y, used);
      var base := used;
      used := RandomizeRow(grid, g[y], coverage, samples, y, used);
      forall yy, xx | 0 <= yy < grid.Length0 && 0 <= xx < grid.Length1
        ensures grid[yy, xx] == if yy < y + 1 then RandomCell(g, samples, coverage, xx, yy) else g[yy][xx]
      {
        assert InGrid(g, xx, yy);
        if yy == y {
          assert grid[y, xx] == RandomTile(g[y][xx], samples[base + 2 * xx], samples[base + 2 * xx + 1], coverage);
        }
      }
    }
    ScanComplete(g, Always);
    SnapshotIs(grid, RandomizedGrid(g, samples, coverage));
  }

  /** Row `y` of randomizeGrid: cell x draws samples `used` + 2x and `used` + 2x + 1. */
  method RandomizeRow(grid: array2<Tile>, ghost row: seq<Tile>, coverage: real, samples: seq<real>, y: int, used: nat)
    returns (used': nat)
    requires 0 <= y < grid.Length0 && |row| == grid.Length1 && used + 2 * grid.Length1 <= |samples|
    requires forall xx :: 0 <= xx < grid.Length1 ==> grid[y, xx] == row[xx]
    modifies grid
    ensures used' == used + 2 * grid.Length1
    ensures forall xx :: 0 <= xx < grid.Length1 ==>
      grid[y, xx] == RandomTile(row[xx], samples[used + 2 * xx], samples[used + 2 * xx + 1], coverage)
    ensures forall yy, xx :: 0 <= yy < grid.Length0 && yy != y && 0 <= xx < grid.Length1 ==>
      grid[yy, xx] == old(grid[yy, xx])
  {
    used' := used;
    for x := 0 to grid.Length1
      invariant used' == used + 2 * x
      invariant forall xx :: 0 <= xx < x ==>
        grid[y, xx] == RandomTile(row[xx], samples[used + 2 * xx], samples[used + 2 * xx + 1], coverage)
      invariant forall yy, xx :: 0 <= yy < grid.Length0 && 0 <= xx < grid.Length1 && (yy != y || x <= xx) ==>
        grid[yy, xx] == old(grid[yy, xx])
    {
      RandomizeCell(grid, row[x], coverage, samples, x, y, used');
      used' := used' + 2;
    }
  }

  /** In row `y` every cell counts, so cell x draws samples `base` + 2x and
      `base` + 2x + 1, where `base` is twice the number of cells in the rows above. */
  lemma RowCells(g: seq<seq<Tile>>, samples: seq<real>, coverage: real, y: int, base: int)
    requires 0 <= y < |g| && EnoughGridSamples(g, samples) && base == 2 * CountRows(g[..y], Always)
    ensures forall xx :: 0 <= xx < |g[y]| ==>
      0 <= base + 2 * xx && base + 2 * xx + 1 < |samples| &&
      RandomCell(g, samples, coverage, xx, y) ==
        RandomTile(g[y][xx], samples[base + 2 * xx], samples[base + 2 * xx + 1], coverage)
  {
    forall xx | 0 <= xx < |g[y]|
      ensures 0 <= base + 2 * xx && base + 2 * xx + 1 < |samples|
      ensures RandomCell(g, samples, coverage, xx, y) ==
        RandomTile(g[y][xx], samples[base + 2 * xx], samples[base + 2 * xx + 1], coverage)
    {
      BeforeAlways(g, xx, y);
      RandomStep(g, samples, coverage, xx, y);
    }
  }

  /** The cell at (x, y) of randomizeGrid, drawing samples `used` and `used` + 1. */
  method RandomizeCell(grid: array2<Tile>, ghost cell: Tile, coverage: real, samples: seq<real>, x: int, y: int, used: nat)
    requires 0 <= y < grid.Length0 && 0 <= x < grid.Length1 && grid[y, x] == cell && used + 1 < |samples|
    modifies grid
    ensures grid[y, x] == RandomTile(cell, samples[used], samples[used + 1], coverage)
    ensures forall yy, xx :: 0 <= yy < grid.Length0 && 0 <= xx < grid.Length1 && (yy != y || xx != x) ==>
      grid[yy, xx] == old(grid[yy, xx])
  {
    var paint := if samples[used] < 0.5 then AllyLife else EnemyLife;
    if samples[used + 1] < coverage {
      grid[y, x] := GiveLife(grid[y, x], paint);
    } else {
      grid[y, x] := TakeLife(grid[y, x]);
    }
  }

  /** After randomizeGrid every cell keeps its coordinates and holds 'ally',
      'enemy' or 'none'; it is alive exactly when its second sample was below
      the coverage. */
  lemma RandomizedGridCells(g: seq<seq<Tile>>, samples: seq<real>, coverage: real, x: int, y: int)
    requires InGrid(g, x, y) && EnoughGridSamples(g, samples)
    ensures 2 * Before(g, x, y, Always) + 1 < |samples|
    ensures var c := RandomizedGrid(g, samples, coverage)[y][x];
      && c.x == g[y][x].x && c.y == g[y][x].y
      && (c.life == Some(AllyLife) || c.life == Some(EnemyLife) || c.life == Some(NoLife))
      && (IsCellAlive(Some(c)) <==> samples[2 * Before(g, x, y, Always) + 1] < coverage)
  {
    RandomStep(g, samples, coverage, x, y);
  }

  /** The grid with every cell's life taken. */
  function Killed(g: seq<seq<Tile>>): (r: seq<seq<Tile>>)
    ensures |r| == |g| && forall y :: 0 <= y < |g| ==> |r[y]| == |g[y]|
  {
    seq(|g|, y requires 0 <= y < |g| => seq(|g[y]|, x requires 0 <= x < |g[y]| => TakeLife(g[y][x])))
  }

  /** clearGrid. */
  method ClearGrid(grid: array2<Tile>)
    modifies grid
    ensures Snapshot(grid) == Killed(old(Snapshot(grid)))
  {
    ghost var g := Snapshot(grid);
    for y := 0 to grid.Length0
      invariant forall yy, xx :: 0 <= yy < grid.Length0 && 0 <= xx < grid.Length1 ==>
        grid[yy, xx] == if yy < y then TakeLife(g[yy][xx]) else g[yy][xx]
    {
      for x := 0 to grid.Length1
        invariant forall yy, xx :: 0 <= yy < grid.Length0 && 0 <= xx < grid.Length1 ==>
          grid[yy, xx] == if Precedes(xx, yy, x, y) then TakeLife(g[yy][xx]) else g[yy][xx]
      {
        grid[y, x] := TakeLife(grid[y, x]);
      }
    }
    SnapshotIs(grid, Killed(g));
  }

  /** After clearGrid no cell is alive, every cell keeps its coordinates, and clearing again changes nothing. */
  lemma KilledCells(g: seq<seq<Tile>>)
    ensures forall y, x :: InGrid(g, x, y) ==>
      !IsCellAlive(Some(Killed(g)[y][x])) && Killed(g)[y][x].x == g[y][x].x && Killed(g)[y][x].y == g[y][x].y
    ensures Killed(Killed(g)) == Killed(g)
  {
    assert forall y :: 0 <= y < |g| ==> Killed(Killed(g))[y] == Killed(g)[y];
  }
}
