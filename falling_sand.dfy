/** The falling-sand engine: sand, fire and concrete on a double-buffered
    grid. Sand and concrete write through `setGrid`, which drops column 0,
    row 0 and everything outside; fire writes straight into the new grid. */
module FallingSand {
  import opened Grids
  import opened Writes
  import opened Neighbours
  import Tick

  /** What `updateSand` writes for the grain at (x, y), in its priority order:
      ignite, rest on the floor, slide left, slide right, stay, fall. */
  function SandWrites(g: Grid, x: int, y: int): (r: seq<Write>)
    ensures |r| == 1 && r[0].Set? && r[0].m in {Sand, Fire}
    ensures r[0].m == Fire <==> CheckNeighbours(EngineBoard(g), x, y, [Fire]) > 0
    ensures r[0].m == Fire ==> r[0].x == x && r[0].y == y
    ensures r[0].x - x in {-1, 0, 1} && r[0].y - y in {0, 1}
  {
    var b := EngineBoard(g);
    if CheckNeighbours(b, x, y, [Fire]) > 0 then [Set(x, y, Fire)]
    else if y + 1 > b.floor then [Set(x, y, Sand)]
    else if CheckBottom(b, x, y, [Sand, Concrete]) then
      if !CheckBottomLeft(b, x, y, [Sand, Concrete]) then [Set(x - 1, y + 1, Sand)]
      else if !CheckBottomRight(b, x, y, [Sand, Concrete]) then [Set(x + 1, y + 1, Sand)]
      else [Set(x, y, Sand)]
    else [Set(x, y + 1, Sand)]
  }

  /** What `updateFire` writes for the fire at (x, y): fire into sand on the
      left and on the right, and one row down unless that row is the floor.
      It never writes its own cell, and on a grid every write is in range. */
  function FireWrites(g: Grid, x: int, y: int): (r: seq<Write>)
    ensures |r| <= 3
    ensures Raw(x - 1, y, Fire) in r <==> CheckLeft(EngineBoard(g), x, y, [Sand])
    ensures Raw(x + 1, y, Fire) in r <==> CheckRight(EngineBoard(g), x, y, [Sand])
    ensures Raw(x, y + 1, Fire) in r <==> y + 1 < Height(g) - 1
    ensures forall k :: 0 <= k < |r| ==> r[k].Raw? && r[k].m == Fire && (r[k].x, r[k].y) != (x, y)
    ensures IsGrid(g) && Tick.InGrid(g, x, y) ==> forall k :: 0 <= k < |r| ==> Tick.InGrid(g, r[k].x, r[k].y)
  {
    var b := EngineBoard(g);
    (if CheckLeft(b, x, y, [Sand]) then [Raw(x - 1, y, Fire)] else []) +
    (if CheckRight(b, x, y, [Sand]) then [Raw(x + 1, y, Fire)] else []) +
    (if y + 1 < b.floor then [Raw(x, y + 1, Fire)] else [])
  }

  /** What `updateConcrete` writes: concrete back at its own position. */
  function ConcreteWrites(g: Grid, x: int, y: int): seq<Write>
  {
    [Set(x, y, Concrete)]
  }

  /** The dispatch of `updateGrid` on the old cell; empty cells write nothing,
      and no cell ever writes `Empty`. */
  function CellWrites(g: Grid, x: int, y: int): (r: seq<Write>)
    ensures Cell(g, x, y) == Empty ==> r == []
    ensures |r| <= 3
    ensures forall k :: 0 <= k < |r| ==> r[k].m != Empty
  {
    match Cell(g, x, y)
    case Sand => SandWrites(g, x, y)
    case Fire => FireWrites(g, x, y)
    case Concrete => ConcreteWrites(g, x, y)
    case Empty => []
  }

  /** The writes of every cell of `g`, laid out like the grid. */
  function Plan(g: Grid): (p: Tick.Plan)
    ensures Width(p) == Width(g) && IsGrid(p)
    ensures IsGrid(g) ==> Height(p) == Height(g)
  {
    seq(Width(g), x => seq(Height(g), y => CellWrites(g, x, y)))
  }

  /** `plan` holds the writes of every cell of grid `g`. (Stated apart from
      `Plan` so that the loops below see the writes of a cell only where they
      ask for them.) */
  ghost predicate Plans(plan: Tick.Plan, g: Grid)
  {
    IsGrid(g) && Width(plan) == Width(g) && Height(plan) == Height(g) &&
    forall x, y {:trigger CellWrites(g, x, y)} :: Tick.InGrid(g, x, y) ==> Tick.At(plan, x, y) == CellWrites(g, x, y)
  }

  /** Cell (i, j) of the grid after one tick from `g`. */
  function Next(g: Grid, i: int, j: int): Material
  {
    Tick.Final(Plan(g), i, j)
  }

  method UpdateSand(g: Grid, newGrid: array2<Material>, x: int, y: int)
    modifies newGrid
    ensures forall i, j :: 0 <= i < newGrid.Length0 && 0 <= j < newGrid.Length1 ==>
              newGrid[i, j] == After(SandWrites(g, x, y), newGrid.Length0, newGrid.Length1, i, j, old(newGrid[i, j]))
  {
    var b := EngineBoard(g);
    if CheckNeighbours(b, x, y, [Fire]) > 0 {
      SetGrid(newGrid, x, y, Fire);
    } else if y + 1 > b.floor {
      SetGrid(newGrid, x, y, Sand);
    } else if CheckBottom(b, x, y, [Sand, Concrete]) {
      if !CheckBottomLeft(b, x, y, [Sand, Concrete]) {
        SetGrid(newGrid, x - 1, y + 1, Sand);
      } else if !CheckBottomRight(b, x, y, [Sand, Concrete]) {
        SetGrid(newGrid, x + 1, y + 1, Sand);
      } else {
        SetGrid(newGrid, x, y, Sand);
      }
    } else {
      SetGrid(newGrid, x, y + 1, Sand);
    }
  }

  /** The three guarded writes of `updateFire`, in the order it makes them. */
  lemma FireWritesInOrder(g: Grid, x: int, y: int, l: seq<Write>, r: seq<Write>, d: seq<Write>)
    requires l == if CheckLeft(EngineBoard(g), x, y, [Sand]) then [Raw(x - 1, y, Fire)] else []
    requires r == if CheckRight(EngineBoard(g), x, y, [Sand]) then [Raw(x + 1, y, Fire)] else []
    requires d == if y + 1 < Height(g) - 1 then [Raw(x, y + 1, Fire)] else []
    ensures FireWrites(g, x, y) == l + r + d
  {
  }

  method UpdateFire(g: Grid, newGrid: array2<Material>, x: int, y: int)
    requires IsGrid(g) && Tick.InGrid(g, x, y)
    requires newGrid.Length0 == Width(g) && newGrid.Length1 == Height(g)
    modifies newGrid
    ensures forall i, j :: 0 <= i < newGrid.Length0 && 0 <= j < newGrid.Length1 ==>
              newGrid[i, j] == After(FireWrites(g, x, y), newGrid.Length0, newGrid.Length1, i, j, old(newGrid[i, j]))
  {
    var b := EngineBoard(g);
    var cl, cr, cd := CheckLeft(b, x, y, [Sand]), CheckRight(b, x, y, [Sand]), y + 1 < b.floor;
    ghost var l := if cl then [Raw(x - 1, y, Fire)] else [];
    ghost var r := if cr then [Raw(x + 1, y, Fire)] else [];
    ghost var d := if cd then [Raw(x, y + 1, Fire)] else [];
    PutIf(newGrid, cl, x - 1, y, Fire);
    label Left:
    PutIf(newGrid, cr, x + 1, y, Fire);
    label Right:
    PutIf(newGrid, cd, x, y + 1, Fire);
    FireWritesInOrder(g, x, y, l, r, d);
    forall i, j | 0 <= i < newGrid.Length0 && 0 <= j < newGrid.Length1
      ensures newGrid[i, j] == After(FireWrites(g, x, y), newGrid.Length0, newGrid.Length1, i, j, old(newGrid[i, j]))
    {
      var w, h := newGrid.Length0, newGrid.Length1;
      assert old@Left(newGrid[i, j]) == After(l, w, h, i, j, old(newGrid[i, j]));
      assert old@Right(newGrid[i, j]) == After(r, w, h, i, j, old@Left(newGrid[i, j]));
      assert newGrid[i, j] == After(d, w, h, i, j, old@Right(newGrid[i, j]));
      AfterAppend(l, r, w, h, i, j, old(newGrid[i, j]));
      AfterAppend(l + r, d, w, h, i, j, old(newGrid[i, j]));
    }
  }

  method UpdateConcrete(g: Grid, newGrid: array2<Material>, x: int, y: int)
    modifies newGrid
    ensures forall i, j :: 0 <= i < newGrid.Length0 && 0 <= j < newGrid.Length1 ==>
              newGrid[i, j] == After(ConcreteWrites(g, x, y), newGrid.Length0, newGrid.Length1, i, j, old(newGrid[i, j]))
  {
    SetGrid(newGrid, x, y, Concrete);
  }

  /** The `switch` of `updateGrid` on the old cell (x, y), which adds that
      cell's writes to those already made. */
  method UpdateCell(g: Grid, newGrid: array2<Material>, x: int, y: int, ghost plan: Tick.Plan, ghost done: seq<Write>)
    requires Plans(plan, g) && Tick.InGrid(g, x, y)
    requires newGrid.Length0 == Width(g) && newGrid.Length1 == Height(g)
    requires Shows(newGrid, done)
    modifies newGrid
    ensures Shows(newGrid, done + Tick.At(plan, x, y))
  {
    match g[x][y] {
      case Sand => UpdateSand(g, newGrid, x, y);
      case Fire => UpdateFire(g, newGrid, x, y);
      case Concrete => UpdateConcrete(g, newGrid, x, y);
      case Empty =>
    }
    assert Tick.At(plan, x, y) == CellWrites(g, x, y);
    forall i, j | 0 <= i < newGrid.Length0 && 0 <= j < newGrid.Length1
      ensures newGrid[i, j] == After(done + CellWrites(g, x, y), newGrid.Length0, newGrid.Length1, i, j, Empty)
    {
      AfterAppend(done, CellWrites(g, x, y), newGrid.Length0, newGrid.Length1, i, j, Empty);
    }
  }

  /** The inner loop of `updateGrid`: the cells of column x, top to bottom,
      add that column's writes to those of the columns on its left. */
  method UpdateColumn(g: Grid, newGrid: array2<Material>, x: int, ghost plan: Tick.Plan)
    requires Plans(plan, g) && 0 <= x < Width(g)
    requires newGrid.Length0 == Width(g) && newGrid.Length1 == Height(g)
    requires Shows(newGrid, Tick.GridWrites(plan, x))
    modifies newGrid
    ensures Shows(newGrid, Tick.GridWrites(plan, x + 1))
  {
    ghost var done := Tick.GridWrites(plan, x);
    var y, height := 0, newGrid.Length1;
    Tick.GridStep(plan, x);
    while y < height
      invariant 0 <= y <= height
      invariant Shows(newGrid, done + Tick.ColumnWrites(plan, x, y))
    {
      UpdateCell(g, newGrid, x, y, plan, done + Tick.ColumnWrites(plan, x, y));
      Tick.ColumnStep(plan, done, x, y);
      y := y + 1;
    }
  }

  /** The outer loop of `updateGrid`: every column, left to right. */
  method UpdateColumns(g: Grid, newGrid: array2<Material>, ghost plan: Tick.Plan)
    requires Plans(plan, g) && newGrid.Length0 == Width(g) && newGrid.Length1 == Height(g)
    requires Shows(newGrid, [])
    modifies newGrid
    ensures Shows(newGrid, Tick.TickWrites(plan))
  {
    var x, width := 0, newGrid.Length0;
    while x < width
      invariant 0 <= x <= width
      invariant Shows(newGrid, Tick.GridWrites(plan, x))
    {
      UpdateColumn(g, newGrid, x, plan);
      x := x + 1;
    }
    assert Tick.TickWrites(plan) == Tick.GridWrites(plan, x);
  }

  /** `updateGrid`: a fresh grid filled column by column from the old one,
      which is left untouched. */
  method UpdateGrid(grid: array2<Material>) returns (newGrid: array2<Material>)
    requires 0 < grid.Length0 == grid.Length1
    ensures fresh(newGrid) && newGrid.Length0 == grid.Length0 && newGrid.Length1 == grid.Length1
    ensures forall i, j :: 0 <= i < newGrid.Length0 && 0 <= j < newGrid.Length1 ==> newGrid[i, j] == Next(Snapshot(grid), i, j)
  {
    var g := Snapshot(grid);
    ghost var plan := Plan(g);
    assert Plans(plan, g);
    newGrid := Create2DArray(grid.Length0, grid.Length1);
    UpdateColumns(g, newGrid, plan);
  }
}
