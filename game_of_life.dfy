/** The Game-of-Life engine, built from the falling-sand code: a live cell is
    `Sand` (the value 1), every other value is dead. Each cell writes at most
    its own position, through `setGrid`. */
module GameOfLife {
  import opened Grids
  import opened Writes
  import opened Neighbours
  import Tick

  /** `checkNeighbours(x, y, [SAND])`: the live cells the eight checks see. */
  function LiveNeighbours(g: Grid, x: int, y: int): nat
  {
    CheckNeighbours(EngineBoard(g), x, y, [Sand])
  }

  /** Conway's rules as the engine's header states them: a live cell with two
      or three live neighbours lives on, a dead cell with exactly three comes
      alive, every other cell is dead in the next generation. */
  predicate LivesOn(alive: bool, n: nat)
  {
    (alive && (n == 2 || n == 3)) || (!alive && n == 3)
  }

  /** The next generation at (i, j) as a whole-grid rule: row 0, column 0 and
      everything outside the grid stay dead, since `setGrid` drops them. */
  function Generation(g: Grid, i: int, j: int): Material
  {
    if XWithinGrid(i, Width(g)) && YWithinGrid(j, Height(g)) && LivesOn(Cell(g, i, j) == Sand, LiveNeighbours(g, i, j))
    then Sand else Empty
  }

  /** What `updateSand` writes for a live cell: 0 when under- or overcrowded,
      1 otherwise. */
  function SurvivorWrites(g: Grid, x: int, y: int): (r: seq<Write>)
    ensures |r| == 1 && r[0] == Set(x, y, r[0].m)
    ensures r[0].m == Sand <==> LivesOn(true, LiveNeighbours(g, x, y))
    ensures r[0].m in {Sand, Empty}
  {
    var total := LiveNeighbours(g, x, y);
    if total < 2 || total > 3 then [Set(x, y, Empty)] else [Set(x, y, Sand)]
  }

  /** What `updateEmpty` writes for a dead cell: 1 on exactly three live
      neighbours, nothing otherwise. */
  function BirthWrites(g: Grid, x: int, y: int): (r: seq<Write>)
    ensures |r| <= 1 && (|r| == 1 ==> r[0] == Set(x, y, Sand))
    ensures |r| == 1 <==> LivesOn(false, LiveNeighbours(g, x, y))
  {
    if LiveNeighbours(g, x, y) == 3 then [Set(x, y, Sand)] else []
  }

  /** The dispatch of `updateGrid`: 1 is live, anything else takes the default. */
  function CellWrites(g: Grid, x: int, y: int): (r: seq<Write>)
    ensures |r| <= 1
    ensures Cell(g, x, y) == Sand ==> |r| == 1
    ensures Cell(g, x, y) != Sand ==> forall k :: 0 <= k < |r| ==> r[k].m == Sand
  {
    if Cell(g, x, y) == Sand then SurvivorWrites(g, x, y) else BirthWrites(g, x, y)
  }

  /** The writes of every cell of `g`, laid out like the grid. */
  function Plan(g: Grid): (p: Tick.Plan)
    ensures Width(p) == Width(g) && IsGrid(p)
    ensures IsGrid(g) ==> Height(p) == Height(g)
  {
    seq(Width(g), x => seq(Height(g), y => CellWrites(g, x, y)))
  }

  /** `plan` holds the writes of every cell of grid `g`. */
  ghost predicate Plans(plan: Tick.Plan, g: Grid)
  {
    IsGrid(g) && Width(plan) == Width(g) && Height(plan) == Height(g) &&
    forall x, y {:trigger CellWrites(g, x, y)} :: Tick.InGrid(g, x, y) ==> Tick.At(plan, x, y) == CellWrites(g, x, y)
  }

  /** Cell (i, j) of the grid after one tick from `g`. */
  function Next(g: Grid, i: int, j: int): Material
  {
    Tick.Final(Plan(g), i, j)
  }

  /** The plan of `g` holds, at every cell of the grid, that cell's writes. */
  lemma PlanAt(g: Grid, x: int, y: int)
    requires IsGrid(g) && Tick.InGrid(g, x, y)
    ensures Width(Plan(g)) == Width(g) && Height(Plan(g)) == Height(g)
    ensures Tick.At(Plan(g), x, y) == CellWrites(g, x, y)
  {
  }

  /** The grid after one tick, as a value. */
  function Step(g: Grid): (h: Grid)
    ensures Width(h) == Width(g) && IsGrid(h) && (Width(g) > 0 ==> Height(h) == Height(g))
    ensures forall i, j :: Tick.InGrid(g, i, j) ==> Cell(h, i, j) == Next(g, i, j)
  {
    seq(Width(g), i => seq(Height(g), j => Next(g, i, j)))
  }

  /** A cell writes at most once, and only its own position. */
  lemma OnlyOwnCell(g: Grid, x: int, y: int)
    ensures var r := CellWrites(g, x, y); |r| <= 1 && forall k :: 0 <= k < |r| ==> r[k].Set? && r[k].x == x && r[k].y == y
  {
  }

  /** Since every cell writes only itself, the visit order does not matter:
      one tick is exactly the next generation of Conway's rules. */
  lemma NextIsGeneration(g: Grid, i: int, j: int)
    requires IsGrid(g)
    ensures Next(g, i, j) == Generation(g, i, j)
  {
    var own, plan := CellWrites(g, i, j), Plan(g);
    OnlyOwnCell(g, i, j);
    if Tick.InGrid(g, i, j) && |own| == 1 && Lands(own[0], Width(g), Height(g), i, j) {
      PlanAt(g, i, j);
      forall x', y' | Tick.InGrid(plan, x', y') && Tick.VisitedAfter(x', y', i, j)
        ensures Tick.OnlyWrites(plan, x', y', i, j, {own[0].m})
      {
        PlanAt(g, x', y');
        OnlyOwnCell(g, x', y');
      }
      Tick.FinalIs(plan, i, j, i, j, own[0].m);
    } else {
      forall x', y' | Tick.InGrid(plan, x', y') ensures Tick.OnlyWrites(plan, x', y', i, j, {}) {
        PlanAt(g, x', y');
        OnlyOwnCell(g, x', y');
      }
      Tick.FinalAmong(plan, i, j, {});
    }
  }

  /** Row 0 and column 0 of the new grid are always dead. */
  lemma EdgesStayDead(g: Grid, i: int, j: int)
    requires IsGrid(g) && (i == 0 || j == 0)
    ensures Next(g, i, j) == Empty
  {
    NextIsGeneration(g, i, j);
  }

  /** A grid without life stays without life. */
  lemma EmptyStaysEmpty(g: Grid)
    requires IsGrid(g) && forall x, y :: Cell(g, x, y) != Sand
    ensures forall i, j :: Next(g, i, j) == Empty
  {
    forall i, j ensures Next(g, i, j) == Empty {
      NextIsGeneration(g, i, j);
      assert LiveNeighbours(g, i, j) == 0;
    }
  }

  /** Three live cells in row `cy`, centred on column `cx`, and nothing else. */
  ghost predicate Horizontal(g: Grid, cx: int, cy: int)
  {
    forall i, j :: Cell(g, i, j) == (if j == cy && cx - 1 <= i <= cx + 1 then Sand else Empty)
  }

  /** Three live cells in column `cx`, centred on row `cy`, and nothing else. */
  ghost predicate Vertical(g: Grid, cx: int, cy: int)
  {
    forall i, j :: Cell(g, i, j) == (if i == cx && cy - 1 <= j <= cy + 1 then Sand else Empty)
  }

  /** Far enough from the walls that the one-sided guards see every neighbour
      of the blinker: the right neighbour needs `x + 1 < width - 1`, the upper
      ones `y - 1 > 0`, and `setGrid` needs `x, y > 0`. */
  predicate BlinkerRoom(g: Grid, cx: int, cy: int)
  {
    IsGrid(g) && 2 <= cx && cx + 2 < Width(g) && 2 <= cy && cy + 1 < Height(g)
  }

  /** A horizontal blinker turns vertical. */
  lemma HorizontalTurnsVertical(g: Grid, cx: int, cy: int)
    requires BlinkerRoom(g, cx, cy) && Horizontal(g, cx, cy)
    ensures Vertical(Step(g), cx, cy)
  {
    var h := Step(g);
    forall i, j ensures Cell(h, i, j) == (if i == cx && cy - 1 <= j <= cy + 1 then Sand else Empty) {
      if Tick.InGrid(g, i, j) {
        NextIsGeneration(g, i, j);
      }
    }
  }

  /** A vertical blinker turns horizontal. */
  lemma VerticalTurnsHorizontal(g: Grid, cx: int, cy: int)
    requires BlinkerRoom(g, cx, cy) && Vertical(g, cx, cy)
    ensures Horizontal(Step(g), cx, cy)
  {
    var h := Step(g);
    forall i, j ensures Cell(h, i, j) == (if j == cy && cx - 1 <= i <= cx + 1 then Sand else Empty) {
      if Tick.InGrid(g, i, j) {
        NextIsGeneration(g, i, j);
      }
    }
  }

  /** The blinker has period two. */
  lemma BlinkerPeriodTwo(g: Grid, cx: int, cy: int)
    requires BlinkerRoom(g, cx, cy) && Horizontal(g, cx, cy)
    ensures Vertical(Step(g), cx, cy) && Horizontal(Step(Step(g)), cx, cy)
  {
    HorizontalTurnsVertical(g, cx, cy);
    VerticalTurnsHorizontal(Step(g), cx, cy);
  }

  method UpdateSand(g: Grid, newGrid: array2<Material>, x: int, y: int)
    modifies newGrid
    ensures forall i, j :: 0 <= i < newGrid.Length0 && 0 <= j < newGrid.Length1 ==>
              newGrid[i, j] == After(SurvivorWrites(g, x, y), newGrid.Length0, newGrid.Length1, i, j, old(newGrid[i, j]))
  {
    var total := CheckNeighbours(EngineBoard(g), x, y, [Sand]);
    if total < 2 || total > 3 {
      SetGrid(newGrid, x, y, Empty);
      return;
    }
    SetGrid(newGrid, x, y, Sand);
  }

  method UpdateEmpty(g: Grid, newGrid: array2<Material>, x: int, y: int)
    modifies newGrid
    ensures forall i, j :: 0 <= i < newGrid.Length0 && 0 <= j < newGrid.Length1 ==>
              newGrid[i, j] == After(BirthWrites(g, x, y), newGrid.Length0, newGrid.Length1, i, j, old(newGrid[i, j]))
  {
    var total := CheckNeighbours(EngineBoard(g), x, y, [Sand]);
    if total == 3 {
      SetGrid(newGrid, x, y, Sand);
    }
  }

  /** The `switch` of `updateGrid` on the old cell (x, y), which adds that
      cell's writes to those already made. */
  method UpdateCell(g: Grid, newGrid: array2<Material>, x: int, y: int, ghost plan: Tick.Plan, ghost done: seq<Write>)
    requires Plans(plan, g) && Tick.InGrid(g, x, y)
    requires newGrid.Length0 == Width(g) && newGrid.Length1 == Height(g)
    requires Shows(newGrid, done)
    modifies newGrid
    ensures Shows(newGrid, done + Tick.At(plan, x, y))
  {
    if g[x][y] == Sand {
      UpdateSand(g, newGrid, x, y);
    } else {
      UpdateEmpty(g, newGrid, x, y);
    }
    assert Tick.At(plan, x, y) == CellWrites(g, x, y);
    forall i, j | 0 <= i < newGrid.Length0 && 0 <= j < newGrid.Length1
      ensures newGrid[i, j] == After(done + CellWrites(g, x, y), newGrid.Length0, newGrid.Length1, i, j, Empty)
    {
      AfterAppend(done, CellWrites(g, x, y), newGrid.Length0, newGrid.Length1, i, j, Empty);
    }
  }

  /** The inner loop of `updateGrid`: the cells of column x, top to bottom,
      add that column's writes to those of the columns on its left. */
  method UpdateColumn(g: Grid, newGrid: array2<Material>, x: int, ghost plan: Tick.Plan)
    requires Plans(plan, g) && 0 <= x < Width(g)
    requires newGrid.Length0 == Width(g) && newGrid.Length1 == Height(g)
    requires Shows(newGrid, Tick.GridWrites(plan, x))
    modifies newGrid
    ensures Shows(newGrid, Tick.GridWrites(plan, x + 1))
  {
    ghost var done := Tick.GridWrites(plan, x);
    var y, height := 0, newGrid.Length1;
    Tick.GridStep(plan, x);
    while y < height
      invariant 0 <= y <= height
      invariant Shows(newGrid, done + Tick.ColumnWrites(plan, x, y))
    {
      UpdateCell(g, newGrid, x, y, plan, done + Tick.ColumnWrites(plan, x, y));
      Tick.ColumnStep(plan, done, x, y);
      y := y + 1;
    }
  }

  /** The outer loop of `updateGrid`: every column, left to right. */
  method UpdateColumns(g: Grid, newGrid: array2<Material>, ghost plan: Tick.Plan)
    requires Plans(plan, g) && newGrid.Length0 == Width(g) && newGrid.Length1 == Height(g)
    requires Shows(newGrid, [])
    modifies newGrid
    ensures Shows(newGrid, Tick.TickWrites(plan))
  {
    var x, width := 0, newGrid.Length0;
    while x < width
      invariant 0 <= x <= width
      invariant Shows(newGrid, Tick.GridWrites(plan, x))
    {
      UpdateColumn(g, newGrid, x, plan);
      x := x + 1;
    }
    assert Tick.TickWrites(plan) == Tick.GridWrites(plan, x);
  }

  /** `updateGrid`: a fresh grid holding the next generation of the old one,
      which is left untouched. */
  method UpdateGrid(grid: array2<Material>) returns (newGrid: array2<Material>)
    requires 0 < grid.Length0 == grid.Length1
    ensures fresh(newGrid) && newGrid.Length0 == grid.Length0 && newGrid.Length1 == grid.Length1
    ensures forall i, j :: 0 <= i < newGrid.Length0 && 0 <= j < newGrid.Length1 ==> newGrid[i, j] == Next(Snapshot(grid), i, j)
  {
    var g := Snapshot(grid);
    ghost var plan := Plan(g);
    assert Plans(plan, g);
    newGrid := Create2DArray(grid.Length0, grid.Length1);
    UpdateColumns(g, newGrid, plan);
  }

  /** `reset`: a fresh grid without life, which then stays without life. */
  method Reset(width: nat, height: nat) returns (grid: array2<Material>)
    requires 0 < width == height
    ensures fresh(grid) && grid.Length0 == width && grid.Length1 == height
    ensures forall i, j :: Cell(Snapshot(grid), i, j) == Empty
    ensures forall i, j :: Next(Snapshot(grid), i, j) == Empty
  {
    grid := Create2DArray(width, height);
    EmptyStaysEmpty(Snapshot(grid));
  }
}
