/** What one tick of the falling-sand engine does to a cell, proved from the
    writes each cell performs and the order in which `updateGrid` visits them. */
module FallingSandProperties {
  import opened Grids
  import opened Writes
  import opened Neighbours
  import opened FallingSand
  import Tick

  /** The six ways a cell (x', y') can write into cell (i, j): its own rule
      (sand or concrete), a grain sliding down-left, down-right or falling,
      fire moving down, or fire spreading sideways into sand. */
  lemma Writers(g: Grid, x': int, y': int, k: int, i: int, j: int)
    requires IsGrid(g) && Tick.InGrid(g, x', y')
    requires 0 <= k < |CellWrites(g, x', y')| && Lands(CellWrites(g, x', y')[k], Width(g), Height(g), i, j)
    ensures var b, c, w := EngineBoard(g), Cell(g, x', y'), CellWrites(g, x', y')[k];
      && (c == Fire ==> w.m == Fire)
      && (c == Concrete ==> w.m == Concrete)
      && (c == Sand && (x', y') != (i, j) ==> w.m == Sand)
      && (|| (x' == i && y' == j && c in {Sand, Concrete})
          || (x' == i + 1 && y' == j - 1 && c == Sand && !CheckBottomLeft(b, x', y', [Sand, Concrete]))
          || (x' == i - 1 && y' == j - 1 && c == Sand)
          || (x' == i && y' == j - 1 && ((c == Fire && y' + 1 < Height(g) - 1) || (c == Sand && !CheckBottom(b, x', y', [Sand, Concrete]))))
          || (x' == i + 1 && y' == j && c == Fire && Cell(g, i, j) == Sand)
          || (x' == i - 1 && y' == j && c == Fire && Cell(g, i, j) == Sand))
  {
    var b := EngineBoard(g);
    match Cell(g, x', y')
    case Sand =>
    case Concrete =>
    case Empty =>
    case Fire =>
      var l := if CheckLeft(b, x', y', [Sand]) then [Raw(x' - 1, y', Fire)] else [];
      var r := if CheckRight(b, x', y', [Sand]) then [Raw(x' + 1, y', Fire)] else [];
      var d := if y' + 1 < b.floor then [Raw(x', y' + 1, Fire)] else [];
      FireWritesInOrder(g, x', y', l, r, d);
  }

  /** The plan of `g` holds, at every cell of the grid, that cell's writes. */
  lemma PlanAt(g: Grid, x: int, y: int)
    requires IsGrid(g) && Tick.InGrid(g, x, y)
    ensures Width(Plan(g)) == Width(g) && Height(Plan(g)) == Height(g)
    ensures Tick.At(Plan(g), x, y) == CellWrites(g, x, y)
  {
  }

  /** `Tick.FinalIs` for this engine: cell (x, y) lands `v` on (i, j) and no
      cell visited later writes anything else there. */
  lemma LastWriter(g: Grid, x: int, y: int, k0: int, i: int, j: int, v: Material)
    requires IsGrid(g) && Tick.InGrid(g, x, y)
    requires 0 <= k0 < |CellWrites(g, x, y)| && Lands(CellWrites(g, x, y)[k0], Width(g), Height(g), i, j)
    requires After(CellWrites(g, x, y), Width(g), Height(g), i, j, Empty) == v
    requires forall x', y', k ::
               (Tick.InGrid(g, x', y') && Tick.VisitedAfter(x', y', x, y) &&
                0 <= k < |CellWrites(g, x', y')| && Lands(CellWrites(g, x', y')[k], Width(g), Height(g), i, j)) ==>
               CellWrites(g, x', y')[k].m == v
    ensures Next(g, i, j) == v
  {
    var plan := Plan(g);
    PlanAt(g, x, y);
    forall x', y' | Tick.InGrid(plan, x', y') && Tick.VisitedAfter(x', y', x, y)
      ensures Tick.OnlyWrites(plan, x', y', i, j, {v})
    {
      PlanAt(g, x', y');
    }
    Tick.FinalIs(plan, x, y, i, j, v);
  }

  /** `Tick.FinalAmong` for this engine. */
  lemma OnlyWriters(g: Grid, i: int, j: int, s: set<Material>)
    requires IsGrid(g)
    requires forall x', y', k ::
               (Tick.InGrid(g, x', y') &&
                0 <= k < |CellWrites(g, x', y')| && Lands(CellWrites(g, x', y')[k], Width(g), Height(g), i, j)) ==>
               CellWrites(g, x', y')[k].m in s
    ensures Next(g, i, j) == Empty || Next(g, i, j) in s
  {
    var plan := Plan(g);
    forall x', y' | Tick.InGrid(plan, x', y') ensures Tick.OnlyWrites(plan, x', y', i, j, s) {
      PlanAt(g, x', y');
    }
    Tick.FinalAmong(plan, i, j, s);
  }

  /** With nothing on the grid, nothing appears: empty cells write nothing. */
  lemma EmptyStaysEmpty(g: Grid)
    requires IsGrid(g) && forall x, y :: Cell(g, x, y) == Empty
    ensures forall i, j :: Next(g, i, j) == Empty
  {
    forall i, j ensures Next(g, i, j) == Empty {
      OnlyWriters(g, i, j, {});
    }
  }

  /** Concrete off the top row and the left column stays where it is. */
  lemma ConcreteStays(g: Grid, x: int, y: int)
    requires IsGrid(g) && Tick.InGrid(g, x, y)
    requires Cell(g, x, y) == Concrete && 0 < x && 0 < y
    ensures Next(g, x, y) == Concrete
  {
    assert Lands(CellWrites(g, x, y)[0], Width(g), Height(g), x, y);
    forall x', y', k | Tick.InGrid(g, x', y') && Tick.VisitedAfter(x', y', x, y) && 0 <= k < |CellWrites(g, x', y')|
      ensures !Lands(CellWrites(g, x', y')[k], Width(g), Height(g), x, y)
    {
      if Lands(CellWrites(g, x', y')[k], Width(g), Height(g), x, y) {
        Writers(g, x', y', k, x, y);
        assert false;
      }
    }
    LastWriter(g, x, y, 0, x, y, Concrete);
  }

  /** A grain with fire among its neighbours burns where it stands. */
  lemma SandBurns(g: Grid, x: int, y: int)
    requires IsGrid(g) && Tick.InGrid(g, x, y) && 0 < x && 0 < y
    requires Cell(g, x, y) == Sand && CheckNeighbours(EngineBoard(g), x, y, [Fire]) > 0
    ensures Next(g, x, y) == Fire
  {
    assert Lands(CellWrites(g, x, y)[0], Width(g), Height(g), x, y);
    forall x', y', k | Tick.InGrid(g, x', y') && Tick.VisitedAfter(x', y', x, y) &&
        0 <= k < |CellWrites(g, x', y')| && Lands(CellWrites(g, x', y')[k], Width(g), Height(g), x, y)
      ensures CellWrites(g, x', y')[k].m == Fire
    {
      Writers(g, x', y', k, x, y);
      if !(Cell(g, x', y') == Fire) { assert false; }
    }
    LastWriter(g, x, y, 0, x, y, Fire);
  }

  /** A grain on the floor with no fire around stays there (unless fire in the
      last column, which it cannot see, spreads into it). */
  lemma SandRestsOnFloor(g: Grid, x: int)
    requires IsGrid(g) && 0 < x < Width(g) && 1 < Height(g)
    requires var y := Height(g) - 1; Cell(g, x, y) == Sand && CheckNeighbours(EngineBoard(g), x, y, [Fire]) == 0
    requires Cell(g, x + 1, Height(g) - 1) != Fire
    ensures Next(g, x, Height(g) - 1) == Sand
  {
    var y := Height(g) - 1;
    assert Lands(CellWrites(g, x, y)[0], Width(g), Height(g), x, y);
    forall x', y', k | Tick.InGrid(g, x', y') && Tick.VisitedAfter(x', y', x, y) && 0 <= k < |CellWrites(g, x', y')|
      ensures !Lands(CellWrites(g, x', y')[k], Width(g), Height(g), x, y)
    {
      if Lands(CellWrites(g, x', y')[k], Width(g), Height(g), x, y) {
        Writers(g, x', y', k, x, y);
        assert false;
      }
    }
    LastWriter(g, x, y, 0, x, y, Sand);
  }

  /** A grain with no fire around and nothing solid below falls one row. */
  lemma SandFalls(g: Grid, x: int, y: int)
    requires IsGrid(g) && 0 < x < Width(g) && 0 <= y && y + 1 < Height(g)
    requires Cell(g, x, y) == Sand && CheckNeighbours(EngineBoard(g), x, y, [Fire]) == 0
    requires !CheckBottom(EngineBoard(g), x, y, [Sand, Concrete])
    ensures Next(g, x, y + 1) == Sand
  {
    assert Lands(CellWrites(g, x, y)[0], Width(g), Height(g), x, y + 1);
    forall x', y', k | Tick.InGrid(g, x', y') && Tick.VisitedAfter(x', y', x, y) &&
        0 <= k < |CellWrites(g, x', y')| && Lands(CellWrites(g, x', y')[k], Width(g), Height(g), x, y + 1)
      ensures CellWrites(g, x', y')[k].m == Sand
    {
      Writers(g, x', y', k, x, y + 1);
      if !(Cell(g, x', y') == Sand && (x', y') != (x, y + 1)) { assert false; }
    }
    LastWriter(g, x, y, 0, x, y + 1, Sand);
  }

  /** A grain resting on something solid slides down-left when that cell is
      free: the left bias of the tie-break. */
  lemma SandSlidesLeft(g: Grid, x: int, y: int)
    requires IsGrid(g) && 2 <= x < Width(g) && 0 <= y && y + 1 < Height(g)
    requires Cell(g, x, y) == Sand && CheckNeighbours(EngineBoard(g), x, y, [Fire]) == 0
    requires CheckBottom(EngineBoard(g), x, y, [Sand, Concrete])
    requires !CheckBottomLeft(EngineBoard(g), x, y, [Sand, Concrete])
    ensures Next(g, x - 1, y + 1) == Sand
  {
    assert Lands(CellWrites(g, x, y)[0], Width(g), Height(g), x - 1, y + 1);
    forall x', y', k | Tick.InGrid(g, x', y') && Tick.VisitedAfter(x', y', x, y) && 0 <= k < |CellWrites(g, x', y')|
      ensures !Lands(CellWrites(g, x', y')[k], Width(g), Height(g), x - 1, y + 1)
    {
      if Lands(CellWrites(g, x', y')[k], Width(g), Height(g), x - 1, y + 1) {
        Writers(g, x', y', k, x - 1, y + 1);
        assert false;
      }
    }
    LastWriter(g, x, y, 0, x - 1, y + 1, Sand);
  }

  /** With down-left taken, a grain slides down-right when that cell is free. */
  lemma SandSlidesRight(g: Grid, x: int, y: int)
    requires IsGrid(g) && 1 <= x && x + 2 < Width(g) && 0 <= y && y + 1 < Height(g)
    requires Cell(g, x, y) == Sand && CheckNeighbours(EngineBoard(g), x, y, [Fire]) == 0
    requires CheckBottom(EngineBoard(g), x, y, [Sand, Concrete])
    requires CheckBottomLeft(EngineBoard(g), x, y, [Sand, Concrete])
    requires !CheckBottomRight(EngineBoard(g), x, y, [Sand, Concrete])
    ensures Next(g, x + 1, y + 1) == Sand
  {
    SlideRightWrite(g, x, y);
    SlideRightLaterWrites(g, x, y);
    LastWriter(g, x, y, 0, x + 1, y + 1, Sand);
  }

  /** The grain's own write in `SandSlidesRight`. */
  lemma SlideRightWrite(g: Grid, x: int, y: int)
    requires IsGrid(g) && 1 <= x && x + 2 < Width(g) && 0 <= y && y + 1 < Height(g)
    requires Cell(g, x, y) == Sand && CheckNeighbours(EngineBoard(g), x, y, [Fire]) == 0
    requires CheckBottom(EngineBoard(g), x, y, [Sand, Concrete])
    requires CheckBottomLeft(EngineBoard(g), x, y, [Sand, Concrete])
    requires !CheckBottomRight(EngineBoard(g), x, y, [Sand, Concrete])
    ensures CellWrites(g, x, y) == [Set(x + 1, y + 1, Sand)]
    ensures Lands(CellWrites(g, x, y)[0], Width(g), Height(g), x + 1, y + 1)
    ensures After(CellWrites(g, x, y), Width(g), Height(g), x + 1, y + 1, Empty) == Sand
  {
  }

  /** The cells visited after the grain in `SandSlidesRight` put nothing but
      sand on its target. */
  lemma SlideRightLaterWrites(g: Grid, x: int, y: int)
    requires IsGrid(g) && 1 <= x && x + 2 < Width(g) && 0 <= y && y + 1 < Height(g)
    requires Cell(g, x, y) == Sand && CheckNeighbours(EngineBoard(g), x, y, [Fire]) == 0
    requires !CheckBottomRight(EngineBoard(g), x, y, [Sand, Concrete])
    ensures forall x', y', k ::
              (Tick.InGrid(g, x', y') && Tick.VisitedAfter(x', y', x, y) &&
               0 <= k < |CellWrites(g, x', y')| && Lands(CellWrites(g, x', y')[k], Width(g), Height(g), x + 1, y + 1)) ==>
              CellWrites(g, x', y')[k].m == Sand
  {
    forall x', y', k | Tick.InGrid(g, x', y') && Tick.VisitedAfter(x', y', x, y) &&
        0 <= k < |CellWrites(g, x', y')| && Lands(CellWrites(g, x', y')[k], Width(g), Height(g), x + 1, y + 1)
      ensures CellWrites(g, x', y')[k].m == Sand
    {
      SlideRightTargetGetsSand(g, x, y, x', y', k);
    }
  }

  /** Every cell visited after a grain that slides down-right and lands a
      write on the grain's target writes sand there. */
  lemma SlideRightTargetGetsSand(g: Grid, x: int, y: int, x': int, y': int, k: int)
    requires IsGrid(g) && 1 <= x && x + 2 < Width(g) && 0 <= y && y + 1 < Height(g)
    requires Cell(g, x, y) == Sand && CheckNeighbours(EngineBoard(g), x, y, [Fire]) == 0
    requires !CheckBottomRight(EngineBoard(g), x, y, [Sand, Concrete])
    requires Tick.InGrid(g, x', y') && Tick.VisitedAfter(x', y', x, y)
    requires 0 <= k < |CellWrites(g, x', y')| && Lands(CellWrites(g, x', y')[k], Width(g), Height(g), x + 1, y + 1)
    ensures CellWrites(g, x', y')[k].m == Sand
  {
    assert !CheckRight(EngineBoard(g), x, y, [Fire]);
    Writers(g, x', y', k, x + 1, y + 1);
    if !(Cell(g, x', y') == Sand && (x', y') != (x + 1, y + 1)) { assert false; }
  }

  /** In the next-to-last column `checkBottomRight` never holds, since it
      needs `x + 1 < rightWall`. So a grain there with down-left taken always
      slides into the last column, and it lands when that cell is empty or
      fire and no fire above the target moves down into it. */
  lemma SandSlidesIntoLastColumn(g: Grid, x: int, y: int)
    requires IsGrid(g) && 1 <= x && x + 2 == Width(g) && 0 <= y && y + 1 < Height(g)
    requires Cell(g, x, y) == Sand && CheckNeighbours(EngineBoard(g), x, y, [Fire]) == 0
    requires CheckBottom(EngineBoard(g), x, y, [Sand, Concrete])
    requires CheckBottomLeft(EngineBoard(g), x, y, [Sand, Concrete])
    requires Cell(g, x + 1, y) != Fire && Cell(g, x + 1, y + 1) in {Empty, Fire}
    ensures CellWrites(g, x, y) == [Set(x + 1, y + 1, Sand)]
    ensures Next(g, x + 1, y + 1) == Sand
  {
    assert Lands(CellWrites(g, x, y)[0], Width(g), Height(g), x + 1, y + 1);
    forall x', y', k | Tick.InGrid(g, x', y') && Tick.VisitedAfter(x', y', x, y) &&
        0 <= k < |CellWrites(g, x', y')| && Lands(CellWrites(g, x', y')[k], Width(g), Height(g), x + 1, y + 1)
      ensures CellWrites(g, x', y')[k].m == Sand
    {
      Writers(g, x', y', k, x + 1, y + 1);
    }
    LastWriter(g, x, y, 0, x + 1, y + 1, Sand);
  }

  /** The right-wall loss: a grain in the next-to-last column that slides onto
      concrete in the last column makes its only write there, and the
      concrete, visited later, writes itself back over it. */
  lemma RightWallGrainIsLost(g: Grid, x: int, y: int)
    requires IsGrid(g) && 1 <= x && x + 2 == Width(g) && 0 <= y && y + 1 < Height(g)
    requires Cell(g, x, y) == Sand && CheckNeighbours(EngineBoard(g), x, y, [Fire]) == 0
    requires CheckBottom(EngineBoard(g), x, y, [Sand, Concrete])
    requires CheckBottomLeft(EngineBoard(g), x, y, [Sand, Concrete])
    requires Cell(g, x + 1, y + 1) == Concrete
    ensures CellWrites(g, x, y) == [Set(x + 1, y + 1, Sand)]
    ensures Next(g, x + 1, y + 1) == Concrete
  {
    ConcreteStays(g, x + 1, y + 1);
  }

  /** A grain with all three cells below taken stays where it is. */
  lemma SandStays(g: Grid, x: int, y: int)
    requires IsGrid(g) && 0 < x < Width(g) && 0 < y && y + 1 < Height(g)
    requires Cell(g, x, y) == Sand && CheckNeighbours(EngineBoard(g), x, y, [Fire]) == 0
    requires CheckBottom(EngineBoard(g), x, y, [Sand, Concrete])
    requires CheckBottomLeft(EngineBoard(g), x, y, [Sand, Concrete])
    requires CheckBottomRight(EngineBoard(g), x, y, [Sand, Concrete])
    ensures Next(g, x, y) == Sand
  {
    assert Lands(CellWrites(g, x, y)[0], Width(g), Height(g), x, y);
    forall x', y', k | Tick.InGrid(g, x', y') && Tick.VisitedAfter(x', y', x, y) && 0 <= k < |CellWrites(g, x', y')|
      ensures !Lands(CellWrites(g, x', y')[k], Width(g), Height(g), x, y)
    {
      if Lands(CellWrites(g, x', y')[k], Width(g), Height(g), x, y) {
        Writers(g, x', y', k, x, y);
        assert false;
      }
    }
    LastWriter(g, x, y, 0, x, y, Sand);
  }

  /** A grain on the left wall that cannot fall slides towards column -1, and
      `setGrid` drops that write: the grain is lost. */
  lemma LeftWallGrainIsDropped(g: Grid, y: int)
    requires IsGrid(g) && 0 < Width(g) && 0 <= y && y + 1 < Height(g)
    requires Cell(g, 0, y) == Sand && CheckNeighbours(EngineBoard(g), 0, y, [Fire]) == 0
    requires CheckBottom(EngineBoard(g), 0, y, [Sand, Concrete])
    ensures CellWrites(g, 0, y) == [Set(-1, y + 1, Sand)]
    ensures forall k, i, j :: 0 <= k < |CellWrites(g, 0, y)| ==> !Lands(CellWrites(g, 0, y)[k], Width(g), Height(g), i, j)
  {
  }

  /** The right-wall counterpart: `checkBottomRight` never holds in the last
      column, so a blocked grain there with down-left taken slides to column
      `width`, and `setGrid` drops that write too. */
  lemma RightWallGrainIsDropped(g: Grid, x: int, y: int)
    requires IsGrid(g) && 1 <= x && x + 1 == Width(g) && 0 <= y && y + 1 < Height(g)
    requires Cell(g, x, y) == Sand && CheckNeighbours(EngineBoard(g), x, y, [Fire]) == 0
    requires CheckBottom(EngineBoard(g), x, y, [Sand, Concrete])
    requires CheckBottomLeft(EngineBoard(g), x, y, [Sand, Concrete])
    ensures CellWrites(g, x, y) == [Set(x + 1, y + 1, Sand)]
    ensures forall k, i, j :: 0 <= k < |CellWrites(g, x, y)| ==> !Lands(CellWrites(g, x, y)[k], Width(g), Height(g), i, j)
  {
  }

  /** Row 0 and column 0 only ever receive fire: every write through `setGrid`
      there is dropped, and only fire writes directly. */
  lemma EdgesHoldOnlyFire(g: Grid, i: int, j: int)
    requires IsGrid(g) && (i == 0 || j == 0)
    ensures Next(g, i, j) in {Empty, Fire}
  {
    forall x', y', k | Tick.InGrid(g, x', y') &&
        0 <= k < |CellWrites(g, x', y')| && Lands(CellWrites(g, x', y')[k], Width(g), Height(g), i, j)
      ensures CellWrites(g, x', y')[k].m in {Fire}
    {
      Writers(g, x', y', k, i, j);
    }
    OnlyWriters(g, i, j, {Fire});
  }

  /** Fire turns the grain on its left into fire. */
  lemma FireIgnitesLeft(g: Grid, x: int, y: int)
    requires IsGrid(g) && Tick.InGrid(g, x, y) && 1 <= x
    requires Cell(g, x, y) == Fire && Cell(g, x - 1, y) == Sand
    ensures Next(g, x - 1, y) == Fire
  {
    var ws := CellWrites(g, x, y);
    assert ws[0] == Raw(x - 1, y, Fire);
    AfterForgetsStart(ws, Width(g), Height(g), x - 1, y, Empty, Fire);
    AfterWithin(ws, Width(g), Height(g), x - 1, y, Fire, {Fire});
    forall x', y', k | Tick.InGrid(g, x', y') && Tick.VisitedAfter(x', y', x, y) && 0 <= k < |CellWrites(g, x', y')|
      ensures !Lands(CellWrites(g, x', y')[k], Width(g), Height(g), x - 1, y)
    {
      if Lands(CellWrites(g, x', y')[k], Width(g), Height(g), x - 1, y) {
        Writers(g, x', y', k, x - 1, y);
        assert false;
      }
    }
    LastWriter(g, x, y, 0, x - 1, y, Fire);
  }

  /** Fire turns the grain on its right into fire. Fire never looks at the
      last column, but a grain there sees the fire on its left and burns in
      its own cell, which `setGrid` keeps unless it is in row 0. */
  lemma FireIgnitesRight(g: Grid, x: int, y: int)
    requires IsGrid(g) && 0 <= x && x + 1 < Width(g) && 0 <= y < Height(g)
    requires x + 2 < Width(g) || 0 < y
    requires Cell(g, x, y) == Fire && Cell(g, x + 1, y) == Sand
    ensures Next(g, x + 1, y) == Fire
  {
    if x + 2 == Width(g) {
      LastColumnGrainBurns(g, x, y);
    } else {
      FireWritesRight(g, x, y);
    }
  }

  /** A grain in the last column burns from the fire on its left. */
  lemma LastColumnGrainBurns(g: Grid, x: int, y: int)
    requires IsGrid(g) && 0 <= x && x + 2 == Width(g) && 0 < y < Height(g)
    requires Cell(g, x, y) == Fire && Cell(g, x + 1, y) == Sand
    ensures Next(g, x + 1, y) == Fire
  {
    assert CheckLeft(EngineBoard(g), x + 1, y, [Fire]);
    ZeroIffNoneHolds(EngineBoard(g), x + 1, y, [Fire]);
    SandBurns(g, x + 1, y);
  }

  /** Away from the last column, fire's own write to its right stands. */
  lemma FireWritesRight(g: Grid, x: int, y: int)
    requires IsGrid(g) && 0 <= x && x + 2 < Width(g) && 0 <= y < Height(g)
    requires Cell(g, x, y) == Fire && Cell(g, x + 1, y) == Sand
    ensures Next(g, x + 1, y) == Fire
  {
    var ws := CellWrites(g, x, y);
    var k0 := if CheckLeft(EngineBoard(g), x, y, [Sand]) then 1 else 0;
    assert ws[k0] == Raw(x + 1, y, Fire);
    AfterForgetsStart(ws, Width(g), Height(g), x + 1, y, Empty, Fire);
    AfterWithin(ws, Width(g), Height(g), x + 1, y, Fire, {Fire});
    forall x', y', k | Tick.InGrid(g, x', y') && Tick.VisitedAfter(x', y', x, y) &&
        0 <= k < |CellWrites(g, x', y')| && Lands(CellWrites(g, x', y')[k], Width(g), Height(g), x + 1, y)
      ensures CellWrites(g, x', y')[k].m == Fire
    {
      Writers(g, x', y', k, x + 1, y);
      if (x', y') == (x + 1, y) {
        assert CheckLeft(EngineBoard(g), x + 1, y, [Fire]);
      } else if Cell(g, x', y') != Fire {
        assert false;
      }
    }
    LastWriter(g, x, y, k0, x + 1, y, Fire);
  }

  /** Fire moves one row down, unless that row is the floor, into a cell that
      is empty or already burning. */
  lemma FireFalls(g: Grid, x: int, y: int)
    requires IsGrid(g) && Tick.InGrid(g, x, y)
    requires Cell(g, x, y) == Fire && y + 1 < Height(g) - 1 && Cell(g, x, y + 1) in {Empty, Fire}
    ensures Next(g, x, y + 1) == Fire
  {
    var b := EngineBoard(g);
    var l := if CheckLeft(b, x, y, [Sand]) then [Raw(x - 1, y, Fire)] else [];
    var r := if CheckRight(b, x, y, [Sand]) then [Raw(x + 1, y, Fire)] else [];
    var ws := CellWrites(g, x, y);
    assert ws == l + r + [Raw(x, y + 1, Fire)];
    assert Lands(ws[|l| + |r|], Width(g), Height(g), x, y + 1);
    forall x', y', k | Tick.InGrid(g, x', y') && Tick.VisitedAfter(x', y', x, y) &&
        0 <= k < |CellWrites(g, x', y')| && Lands(CellWrites(g, x', y')[k], Width(g), Height(g), x, y + 1)
      ensures CellWrites(g, x', y')[k].m == Fire
    {
      Writers(g, x', y', k, x, y + 1);
      if Cell(g, x', y') != Fire { assert false; }
    }
    LastWriter(g, x, y, |l| + |r|, x, y + 1, Fire);
  }
}
