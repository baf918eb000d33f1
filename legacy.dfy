/** The first, unclamped engine: sand and fire only, every write straight into
    the new grid. Sand ignites only from fire directly above and is blocked
    only by sand. A slide towards a missing column indexes `newGrid[-1]` or
    `newGrid[width]`, which is `undefined`, and the assignment throws; the
    tick then ends without a new grid. */
module Legacy {
  import opened Grids
  import opened Writes
  import opened Neighbours
  import Tick
  import FallingSand

  /** No write of `ws` indexes a missing column. */
  predicate Safe(ws: seq<Write>, width: int)
  {
    forall k :: 0 <= k < |ws| ==> !Throws(ws[k], width)
  }

  /** What the legacy `updateSand` writes for the grain at (x, y): ignite from
      above, rest on the floor, slide left, slide right, stay, fall. Rows are
      always in range; only the column of a slide can be missing. */
  function SandWrites(g: Grid, x: int, y: int): (r: seq<Write>)
    ensures |r| == 1 && r[0].Raw? && r[0].m in {Sand, Fire}
    ensures r[0].m == Fire <==> CheckAbove(EngineBoard(g), x, y, [Fire])
    ensures r[0].m == Fire ==> r[0].x == x && r[0].y == y
    ensures r[0].x - x in {-1, 0, 1} && r[0].y - y in {0, 1}
    ensures 0 <= y < Height(g) ==> 0 <= r[0].y < Height(g)
  {
    var b := EngineBoard(g);
    if CheckAbove(b, x, y, [Fire]) then [Raw(x, y, Fire)]
    else if y + 1 > b.floor then [Raw(x, y, Sand)]
    else if CheckBottom(b, x, y, [Sand]) then
      if !CheckBottomLeft(b, x, y, [Sand]) then [Raw(x - 1, y + 1, Sand)]
      else if !CheckBottomRight(b, x, y, [Sand]) then [Raw(x + 1, y + 1, Sand)]
      else [Raw(x, y, Sand)]
    else [Raw(x, y + 1, Sand)]
  }

  /** The `switch` of the legacy `updateGrid`: 1 is sand, 2 is fire, anything
      else writes nothing. Fire follows the same rule as in the falling-sand
      engine. */
  function CellWrites(g: Grid, x: int, y: int): (r: seq<Write>)
    ensures Cell(g, x, y) !in {Sand, Fire} ==> r == []
    ensures |r| <= 3
    ensures forall k :: 0 <= k < |r| ==> r[k].m in {Sand, Fire}
  {
    match Cell(g, x, y)
    case Sand => SandWrites(g, x, y)
    case Fire => FallingSand.FireWrites(g, x, y)
    case _ => []
  }

  /** The writes of every cell of `g`, laid out like the grid. */
  function Plan(g: Grid): (p: Tick.Plan)
    ensures Width(p) == Width(g) && IsGrid(p)
    ensures IsGrid(g) ==> Height(p) == Height(g)
  {
    seq(Width(g), x => seq(Height(g), y => CellWrites(g, x, y)))
  }

  /** `plan` holds the writes of every cell of grid `g`. */
  ghost predicate Plans(plan: Tick.Plan, g: Grid)
  {
    IsGrid(g) && Width(plan) == Width(g) && Height(plan) == Height(g) &&
    forall x, y {:trigger CellWrites(g, x, y)} :: Tick.InGrid(g, x, y) ==> Tick.At(plan, x, y) == CellWrites(g, x, y)
  }

  /** The plan of `g` holds, at every cell of the grid, that cell's writes. */
  lemma PlanAt(g: Grid, x: int, y: int)
    requires IsGrid(g) && Tick.InGrid(g, x, y)
    ensures Width(Plan(g)) == Width(g) && Height(Plan(g)) == Height(g)
    ensures Tick.At(Plan(g), x, y) == CellWrites(g, x, y)
  {
  }

  /** Cell (i, j) of the grid after a tick from `g` that does not throw. */
  function Next(g: Grid, i: int, j: int): Material
  {
    Tick.Final(Plan(g), i, j)
  }

  /** Some cell of the grid performs a write that throws. */
  ghost predicate Crashes(g: Grid)
  {
    exists x, y :: Tick.InGrid(g, x, y) && !Safe(CellWrites(g, x, y), Width(g))
  }

  /** No cell of columns 0 .. m - 1 of `plan` throws. */
  predicate SafeUpTo(plan: Tick.Plan, m: int)
  {
    forall x, y :: 0 <= x < m && 0 <= y < Height(plan) ==> Safe(Tick.At(plan, x, y), Width(plan))
  }

  /** No cell of rows 0 .. n - 1 of column x of `plan` throws. */
  predicate SafeColumn(plan: Tick.Plan, x: int, n: int)
  {
    forall y :: 0 <= y < n ==> Safe(Tick.At(plan, x, y), Width(plan))
  }

  /** A tick crashes exactly when some cell of its plan throws. */
  lemma CrashesIffUnsafe(g: Grid)
    requires IsGrid(g)
    ensures Crashes(g) <==> !SafeUpTo(Plan(g), Width(g))
  {
    if Crashes(g) {
      var x, y :| Tick.InGrid(g, x, y) && !Safe(CellWrites(g, x, y), Width(g));
      PlanAt(g, x, y);
    }
    if !SafeUpTo(Plan(g), Width(g)) {
      var x, y :| 0 <= x < Width(g) && 0 <= y < Height(Plan(g)) && !Safe(Tick.At(Plan(g), x, y), Width(Plan(g)));
      PlanAt(g, x, y);
    }
  }

  /** `Tick.FinalIs` for this engine: cell (x, y) lands `v` on (i, j) and no
      cell visited later writes anything else there. */
  lemma LastWriter(g: Grid, x: int, y: int, k0: int, i: int, j: int, v: Material)
    requires IsGrid(g) && Tick.InGrid(g, x, y)
    requires 0 <= k0 < |CellWrites(g, x, y)| && Lands(CellWrites(g, x, y)[k0], Width(g), Height(g), i, j)
    requires After(CellWrites(g, x, y), Width(g), Height(g), i, j, Empty) == v
    requires forall x', y', k ::
               (Tick.InGrid(g, x', y') && Tick.VisitedAfter(x', y', x, y) &&
                0 <= k < |CellWrites(g, x', y')| && Lands(CellWrites(g, x', y')[k], Width(g), Height(g), i, j)) ==>
               CellWrites(g, x', y')[k].m == v
    ensures Next(g, i, j) == v
  {
    var plan := Plan(g);
    PlanAt(g, x, y);
    forall x', y' | Tick.InGrid(plan, x', y') && Tick.VisitedAfter(x', y', x, y)
      ensures Tick.OnlyWrites(plan, x', y', i, j, {v})
    {
      PlanAt(g, x', y');
    }
    Tick.FinalIs(plan, x, y, i, j, v);
  }

  /** Exactly the grains that rest on sand, are not lit from above, and stand
      in column 0, or in the last column with sand below-left, throw. Fire
      never throws. */
  lemma ThrowsExactly(g: Grid, x: int, y: int)
    requires IsGrid(g) && Tick.InGrid(g, x, y)
    ensures !Safe(CellWrites(g, x, y), Width(g)) <==>
              Cell(g, x, y) == Sand && !CheckAbove(EngineBoard(g), x, y, [Fire]) && CheckBottom(EngineBoard(g), x, y, [Sand])
              && (x == 0 || (x == Width(g) - 1 && CheckBottomLeft(EngineBoard(g), x, y, [Sand])))
  {
    var ws := CellWrites(g, x, y);
    if Cell(g, x, y) == Fire {
      assert Safe(ws, Width(g));
    } else if Cell(g, x, y) == Sand {
      assert !Safe(ws, Width(g)) <==> Throws(ws[0], Width(g));
    }
  }

  /** The case the left wall is known for: a grain in column 0 on top of sand
      ends the tick with an error. */
  lemma LeftWallCrash(g: Grid, y: int)
    requires IsGrid(g) && 0 < Width(g) && 0 <= y && y + 1 < Height(g)
    requires Cell(g, 0, y) == Sand && Cell(g, 0, y + 1) == Sand && !CheckAbove(EngineBoard(g), 0, y, [Fire])
    ensures Crashes(g)
  {
    ThrowsExactly(g, 0, y);
  }

  /** The right wall throws too: a grain in the last column with sand below and
      below-left slides to column `width`, because `checkBottomRight` is false
      there whatever the cell holds. */
  lemma RightWallCrash(g: Grid, y: int)
    requires IsGrid(g) && 1 < Width(g) && 0 <= y && y + 1 < Height(g)
    requires var x := Width(g) - 1;
      Cell(g, x, y) == Sand && Cell(g, x, y + 1) == Sand && Cell(g, x - 1, y + 1) == Sand && !CheckAbove(EngineBoard(g), x, y, [Fire])
    ensures Crashes(g)
  {
    ThrowsExactly(g, Width(g) - 1, y);
  }

  /** A grid without sand never throws, and one without sand or fire stays empty. */
  lemma EmptyStaysEmpty(g: Grid)
    requires IsGrid(g) && forall x, y :: Cell(g, x, y) in {Empty, Concrete}
    ensures !Crashes(g)
    ensures forall i, j :: Next(g, i, j) == Empty
  {
    var plan := Plan(g);
    forall x', y', i, j | Tick.InGrid(plan, x', y') ensures Tick.OnlyWrites(plan, x', y', i, j, {}) {
      PlanAt(g, x', y');
    }
    forall i, j ensures Next(g, i, j) == Empty {
      Tick.FinalAmong(plan, i, j, {});
    }
  }

  /** Which old cells can land a write on (i, j), and what they write: the
      own cell (sand), the grains up-right, up-left and above, fire above,
      and fire beside a grain at (i, j). */
  lemma Writers(g: Grid, x': int, y': int, k: int, i: int, j: int)
    requires IsGrid(g) && Tick.InGrid(g, x', y')
    requires 0 <= k < |CellWrites(g, x', y')| && Lands(CellWrites(g, x', y')[k], Width(g), Height(g), i, j)
    ensures var c, m := Cell(g, x', y'), CellWrites(g, x', y')[k].m;
      && (c == Fire ==> m == Fire)
      && (c == Sand && (x', y') != (i, j) ==> m == Sand)
      && ((x' == i && y' == j && c == Sand)
          || (x' == i + 1 && y' == j - 1 && c == Sand && !CheckBottomLeft(EngineBoard(g), x', y', [Sand]))
          || (x' == i - 1 && y' == j - 1 && c == Sand)
          || (x' == i && y' == j - 1 && ((c == Fire && y' + 1 < Height(g) - 1) || (c == Sand && !CheckBottom(EngineBoard(g), x', y', [Sand]))))
          || (x' == i + 1 && y' == j && c == Fire && Cell(g, i, j) == Sand)
          || (x' == i - 1 && y' == j && c == Fire && Cell(g, i, j) == Sand))
  {
    var b := EngineBoard(g);
    match Cell(g, x', y')
    case Sand =>
    case Fire =>
      var l := if CheckLeft(b, x', y', [Sand]) then [Raw(x' - 1, y', Fire)] else [];
      var r := if CheckRight(b, x', y', [Sand]) then [Raw(x' + 1, y', Fire)] else [];
      var d := if y' + 1 < b.floor then [Raw(x', y' + 1, Fire)] else [];
      assert CellWrites(g, x', y') == l + r + d;
    case _ =>
  }

  /** Fire directly above lights a grain, wherever it stands. */
  lemma SandBurnsFromAbove(g: Grid, x: int, y: int)
    requires IsGrid(g) && Tick.InGrid(g, x, y)
    requires Cell(g, x, y) == Sand && CheckAbove(EngineBoard(g), x, y, [Fire])
    ensures Next(g, x, y) == Fire
  {
    assert Lands(CellWrites(g, x, y)[0], Width(g), Height(g), x, y);
    forall x', y', k | Tick.InGrid(g, x', y') && Tick.VisitedAfter(x', y', x, y) &&
        0 <= k < |CellWrites(g, x', y')| && Lands(CellWrites(g, x', y')[k], Width(g), Height(g), x, y)
      ensures CellWrites(g, x', y')[k].m == Fire
    {
      Writers(g, x', y', k, x, y);
      if !(Cell(g, x', y') == Fire) { assert false; }
    }
    LastWriter(g, x, y, 0, x, y, Fire);
  }

  /** A grain with no sand below falls one row, whatever else is there. */
  lemma SandFalls(g: Grid, x: int, y: int)
    requires IsGrid(g) && 0 <= x < Width(g) && 0 <= y && y + 1 < Height(g)
    requires Cell(g, x, y) == Sand && !CheckAbove(EngineBoard(g), x, y, [Fire])
    requires Cell(g, x, y + 1) != Sand
    ensures Next(g, x, y + 1) == Sand
  {
    assert Lands(CellWrites(g, x, y)[0], Width(g), Height(g), x, y + 1);
    forall x', y', k | Tick.InGrid(g, x', y') && Tick.VisitedAfter(x', y', x, y) &&
        0 <= k < |CellWrites(g, x', y')| && Lands(CellWrites(g, x', y')[k], Width(g), Height(g), x, y + 1)
      ensures CellWrites(g, x', y')[k].m == Sand
    {
      Writers(g, x', y', k, x, y + 1);
      if !(Cell(g, x', y') == Sand && (x', y') != (x, y + 1)) { assert false; }
    }
    LastWriter(g, x, y, 0, x, y + 1, Sand);
  }

  /** A grain on the floor that is not lit from above stays there, unless fire
      on its right spreads into it. */
  lemma SandRestsOnFloor(g: Grid, x: int)
    requires IsGrid(g) && 0 <= x < Width(g) && 1 < Height(g)
    requires var y := Height(g) - 1; Cell(g, x, y) == Sand && !CheckAbove(EngineBoard(g), x, y, [Fire])
    requires Cell(g, x + 1, Height(g) - 1) != Fire
    ensures Next(g, x, Height(g) - 1) == Sand
  {
    var y := Height(g) - 1;
    assert Lands(CellWrites(g, x, y)[0], Width(g), Height(g), x, y);
    forall x', y', k | Tick.InGrid(g, x', y') && Tick.VisitedAfter(x', y', x, y) &&
        0 <= k < |CellWrites(g, x', y')| && Lands(CellWrites(g, x', y')[k], Width(g), Height(g), x, y)
      ensures CellWrites(g, x', y')[k].m == Sand
    {
      Writers(g, x', y', k, x, y);
      if !(Cell(g, x', y') == Sand && (x', y') != (x, y)) { assert false; }
    }
    LastWriter(g, x, y, 0, x, y, Sand);
  }

  /** A grain resting on sand slides down-left when that cell holds no sand;
      only sand blocks, so concrete there does not. */
  lemma SandSlidesLeft(g: Grid, x: int, y: int)
    requires IsGrid(g) && 1 <= x < Width(g) && 0 <= y && y + 1 < Height(g)
    requires Cell(g, x, y) == Sand && !CheckAbove(EngineBoard(g), x, y, [Fire])
    requires CheckBottom(EngineBoard(g), x, y, [Sand]) && !CheckBottomLeft(EngineBoard(g), x, y, [Sand])
    ensures Next(g, x - 1, y + 1) == Sand
  {
    assert Lands(CellWrites(g, x, y)[0], Width(g), Height(g), x - 1, y + 1);
    forall x', y', k | Tick.InGrid(g, x', y') && Tick.VisitedAfter(x', y', x, y) && 0 <= k < |CellWrites(g, x', y')|
      ensures !Lands(CellWrites(g, x', y')[k], Width(g), Height(g), x - 1, y + 1)
    {
      if Lands(CellWrites(g, x', y')[k], Width(g), Height(g), x - 1, y + 1) {
        Writers(g, x', y', k, x - 1, y + 1);
        assert false;
      }
    }
    LastWriter(g, x, y, 0, x - 1, y + 1, Sand);
  }

  /** With down-left taken, a grain slides down-right when `checkBottomRight`
      is false and that column exists, unless fire right above the target
      moves into it. */
  lemma SandSlidesRight(g: Grid, x: int, y: int)
    requires IsGrid(g) && 0 <= x && x + 1 < Width(g) && 0 <= y && y + 1 < Height(g)
    requires Cell(g, x, y) == Sand && !CheckAbove(EngineBoard(g), x, y, [Fire])
    requires CheckBottom(EngineBoard(g), x, y, [Sand]) && CheckBottomLeft(EngineBoard(g), x, y, [Sand])
    requires !CheckBottomRight(EngineBoard(g), x, y, [Sand])
    requires Cell(g, x + 1, y) != Fire
    ensures Next(g, x + 1, y + 1) == Sand
  {
    assert Lands(CellWrites(g, x, y)[0], Width(g), Height(g), x + 1, y + 1);
    forall x', y', k | Tick.InGrid(g, x', y') && Tick.VisitedAfter(x', y', x, y) &&
        0 <= k < |CellWrites(g, x', y')| && Lands(CellWrites(g, x', y')[k], Width(g), Height(g), x + 1, y + 1)
      ensures CellWrites(g, x', y')[k].m == Sand
    {
      Writers(g, x', y', k, x + 1, y + 1);
      if (x', y') == (x + 1, y + 1) {
        assert CellWrites(g, x', y') == SandWrites(g, x', y');
      } else if Cell(g, x', y') != Sand {
        assert false;
      }
    }
    LastWriter(g, x, y, 0, x + 1, y + 1, Sand);
  }

  /** A grain with sand in all three cells below stays where it is, unless
      fire on its right spreads into it. */
  lemma SandStays(g: Grid, x: int, y: int)
    requires IsGrid(g) && 0 <= x < Width(g) && 0 <= y && y + 1 < Height(g)
    requires Cell(g, x, y) == Sand && !CheckAbove(EngineBoard(g), x, y, [Fire])
    requires CheckBottom(EngineBoard(g), x, y, [Sand]) && CheckBottomLeft(EngineBoard(g), x, y, [Sand])
    requires CheckBottomRight(EngineBoard(g), x, y, [Sand])
    requires Cell(g, x + 1, y) != Fire
    ensures Next(g, x, y) == Sand
  {
    assert Lands(CellWrites(g, x, y)[0], Width(g), Height(g), x, y);
    forall x', y', k | Tick.InGrid(g, x', y') && Tick.VisitedAfter(x', y', x, y) && 0 <= k < |CellWrites(g, x', y')|
      ensures !Lands(CellWrites(g, x', y')[k], Width(g), Height(g), x, y)
    {
      if Lands(CellWrites(g, x', y')[k], Width(g), Height(g), x, y) {
        Writers(g, x', y', k, x, y);
        assert false;
      }
    }
    LastWriter(g, x, y, 0, x, y, Sand);
  }

  /** Fire turns the grain on its left into fire. */
  lemma FireIgnitesLeft(g: Grid, x: int, y: int)
    requires IsGrid(g) && Tick.InGrid(g, x, y) && 1 <= x
    requires Cell(g, x, y) == Fire && Cell(g, x - 1, y) == Sand
    ensures Next(g, x - 1, y) == Fire
  {
    var ws := CellWrites(g, x, y);
    assert ws[0] == Raw(x - 1, y, Fire);
    AfterForgetsStart(ws, Width(g), Height(g), x - 1, y, Empty, Fire);
    AfterWithin(ws, Width(g), Height(g), x - 1, y, Fire, {Fire});
    forall x', y', k | Tick.InGrid(g, x', y') && Tick.VisitedAfter(x', y', x, y) && 0 <= k < |CellWrites(g, x', y')|
      ensures !Lands(CellWrites(g, x', y')[k], Width(g), Height(g), x - 1, y)
    {
      if Lands(CellWrites(g, x', y')[k], Width(g), Height(g), x - 1, y) {
        Writers(g, x', y', k, x - 1, y);
        assert false;
      }
    }
    LastWriter(g, x, y, 0, x - 1, y, Fire);
  }

  /** Fire turns the grain on its right into fire when that grain, which
      looks only upward for fire, leaves its cell by falling or sliding; a
      grain that stays writes sand back over the fire (see `SandRestsOnFloor`,
      `SandStays`). */
  lemma FireIgnitesRight(g: Grid, x: int, y: int)
    requires IsGrid(g) && 0 <= x && x + 2 < Width(g) && 0 <= y && y + 1 < Height(g)
    requires Cell(g, x, y) == Fire && Cell(g, x + 1, y) == Sand
    requires !(Cell(g, x + 1, y + 1) == Sand && Cell(g, x, y + 1) == Sand && CheckBottomRight(EngineBoard(g), x + 1, y, [Sand]))
    ensures Next(g, x + 1, y) == Fire
  {
    var ws := CellWrites(g, x, y);
    var k0 := if CheckLeft(EngineBoard(g), x, y, [Sand]) then 1 else 0;
    assert ws[k0] == Raw(x + 1, y, Fire);
    AfterForgetsStart(ws, Width(g), Height(g), x + 1, y, Empty, Fire);
    AfterWithin(ws, Width(g), Height(g), x + 1, y, Fire, {Fire});
    forall x', y', k | Tick.InGrid(g, x', y') && Tick.VisitedAfter(x', y', x, y) &&
        0 <= k < |CellWrites(g, x', y')| && Lands(CellWrites(g, x', y')[k], Width(g), Height(g), x + 1, y)
      ensures CellWrites(g, x', y')[k].m == Fire
    {
      Writers(g, x', y', k, x + 1, y);
      if (x', y') == (x + 1, y) {
        assert CellWrites(g, x', y') == SandWrites(g, x', y');
      } else if Cell(g, x', y') != Fire {
        assert false;
      }
    }
    LastWriter(g, x, y, k0, x + 1, y, Fire);
  }

  /** Fire moves one row down, unless that row is the floor, into a cell that
      is empty or already burning, unless a grain on its right slides into
      that cell after it. */
  lemma FireFalls(g: Grid, x: int, y: int)
    requires IsGrid(g) && Tick.InGrid(g, x, y)
    requires Cell(g, x, y) == Fire && y + 1 < Height(g) - 1 && Cell(g, x, y + 1) in {Empty, Fire}
    requires Cell(g, x + 1, y) != Sand
    ensures Next(g, x, y + 1) == Fire
  {
    var b := EngineBoard(g);
    var l := if CheckLeft(b, x, y, [Sand]) then [Raw(x - 1, y, Fire)] else [];
    var r := if CheckRight(b, x, y, [Sand]) then [Raw(x + 1, y, Fire)] else [];
    var ws := CellWrites(g, x, y);
    assert ws == l + r + [Raw(x, y + 1, Fire)];
    assert Lands(ws[|l| + |r|], Width(g), Height(g), x, y + 1);
    forall x', y', k | Tick.InGrid(g, x', y') && Tick.VisitedAfter(x', y', x, y) && 0 <= k < |CellWrites(g, x', y')|
      ensures !Lands(CellWrites(g, x', y')[k], Width(g), Height(g), x, y + 1)
    {
      if Lands(CellWrites(g, x', y')[k], Width(g), Height(g), x, y + 1) {
        Writers(g, x', y', k, x, y + 1);
        assert false;
      }
    }
    LastWriter(g, x, y, |l| + |r|, x, y + 1, Fire);
  }

  /** The legacy `updateSand`; `ok` is false exactly when its write throws,
      and then nothing was written. */
  method UpdateSand(g: Grid, newGrid: array2<Material>, x: int, y: int) returns (ok: bool)
    requires IsGrid(g) && Tick.InGrid(g, x, y)
    requires newGrid.Length0 == Width(g) && newGrid.Length1 == Height(g)
    modifies newGrid
    ensures ok <==> Safe(SandWrites(g, x, y), newGrid.Length0)
    ensures !ok ==> unchanged(newGrid)
    ensures ok ==> forall i, j :: 0 <= i < newGrid.Length0 && 0 <= j < newGrid.Length1 ==>
              newGrid[i, j] == After(SandWrites(g, x, y), newGrid.Length0, newGrid.Length1, i, j, old(newGrid[i, j]))
  {
    var b := EngineBoard(g);
    if CheckAbove(b, x, y, [Fire]) {
      newGrid[x, y] := Fire;
    } else if y + 1 > b.floor {
      newGrid[x, y] := Sand;
    } else if CheckBottom(b, x, y, [Sand]) {
      if !CheckBottomLeft(b, x, y, [Sand]) {
        if x - 1 < 0 {
          return false;
        }
        newGrid[x - 1, y + 1] := Sand;
      } else if !CheckBottomRight(b, x, y, [Sand]) {
        if x + 1 >= newGrid.Length0 {
          return false;
        }
        newGrid[x + 1, y + 1] := Sand;
      } else {
        newGrid[x, y] := Sand;
      }
    } else {
      newGrid[x, y + 1] := Sand;
    }
    ok := true;
  }

  /** The legacy `switch` on the old cell (x, y), which adds that cell's
      writes to those already made unless one of them throws. */
  method UpdateCell(g: Grid, newGrid: array2<Material>, x: int, y: int, ghost plan: Tick.Plan, ghost done: seq<Write>)
    returns (ok: bool)
    requires Plans(plan, g) && Tick.InGrid(g, x, y)
    requires newGrid.Length0 == Width(g) && newGrid.Length1 == Height(g)
    requires Shows(newGrid, done)
    modifies newGrid
    ensures ok <==> Safe(Tick.At(plan, x, y), Width(g))
    ensures ok ==> Shows(newGrid, done + Tick.At(plan, x, y))
  {
    match g[x][y] {
      case Sand =>
        ok := UpdateSand(g, newGrid, x, y);
      case Fire =>
        FallingSand.UpdateFire(g, newGrid, x, y);
        ok := true;
      case _ =>
        ok := true;
    }
    assert Tick.At(plan, x, y) == CellWrites(g, x, y);
    if ok {
      forall i, j | 0 <= i < newGrid.Length0 && 0 <= j < newGrid.Length1
        ensures newGrid[i, j] == After(done + CellWrites(g, x, y), newGrid.Length0, newGrid.Length1, i, j, Empty)
      {
        AfterAppend(done, CellWrites(g, x, y), newGrid.Length0, newGrid.Length1, i, j, Empty);
      }
    }
  }

  /** The inner loop of the legacy `updateGrid`; it stops at the first throw. */
  method UpdateColumn(g: Grid, newGrid: array2<Material>, x: int, ghost plan: Tick.Plan) returns (ok: bool)
    requires Plans(plan, g) && 0 <= x < Width(g)
    requires newGrid.Length0 == Width(g) && newGrid.Length1 == Height(g)
    requires Shows(newGrid, Tick.GridWrites(plan, x))
    modifies newGrid
    ensures ok <==> SafeColumn(plan, x, Height(g))
    ensures ok ==> Shows(newGrid, Tick.GridWrites(plan, x + 1))
  {
    ghost var done := Tick.GridWrites(plan, x);
    var y, height := 0, newGrid.Length1;
    Tick.GridStep(plan, x);
    while y < height
      invariant 0 <= y <= height
      invariant SafeColumn(plan, x, y)
      invariant Shows(newGrid, done + Tick.ColumnWrites(plan, x, y))
    {
      ok := UpdateCell(g, newGrid, x, y, plan, done + Tick.ColumnWrites(plan, x, y));
      if !ok {
        assert !Safe(Tick.At(plan, x, y), Width(g));
        return;
      }
      Tick.ColumnStep(plan, done, x, y);
      y := y + 1;
    }
    ok := true;
  }

  /** A safe column extends the safe prefix of columns by one. */
  lemma SafeColumnStep(plan: Tick.Plan, x: int)
    requires 0 <= x && SafeUpTo(plan, x) && SafeColumn(plan, x, Height(plan))
    ensures SafeUpTo(plan, x + 1)
  {
  }

  /** One column with a throwing cell makes every prefix that holds it unsafe. */
  lemma UnsafeColumn(plan: Tick.Plan, x: int, m: int)
    requires 0 <= x < m && !SafeColumn(plan, x, Height(plan))
    ensures !SafeUpTo(plan, m)
  {
  }

  /** The outer loop of the legacy `updateGrid`; it stops at the first throw. */
  method UpdateColumns(g: Grid, newGrid: array2<Material>, ghost plan: Tick.Plan) returns (ok: bool)
    requires Plans(plan, g) && newGrid.Length0 == Width(g) && newGrid.Length1 == Height(g)
    requires Shows(newGrid, [])
    modifies newGrid
    ensures ok <==> SafeUpTo(plan, Width(g))
    ensures ok ==> Shows(newGrid, Tick.TickWrites(plan))
  {
    var x, width := 0, newGrid.Length0;
    while x < width
      invariant 0 <= x <= width
      invariant SafeUpTo(plan, x)
      invariant Shows(newGrid, Tick.GridWrites(plan, x))
    {
      ok := UpdateColumn(g, newGrid, x, plan);
      if !ok {
        UnsafeColumn(plan, x, width);
        return;
      }
      SafeColumnStep(plan, x);
      x := x + 1;
    }
    assert Tick.TickWrites(plan) == Tick.GridWrites(plan, x);
    ok := true;
  }

  /** The legacy `updateGrid`. It either throws (`ok` false), exactly when some
      cell's write indexes a missing column, or returns the next grid; the old
      grid is left untouched either way. */
  method UpdateGrid(grid: array2<Material>) returns (newGrid: array2<Material>, ok: bool)
    requires 0 < grid.Length0 == grid.Length1
    ensures fresh(newGrid) && newGrid.Length0 == grid.Length0 && newGrid.Length1 == grid.Length1
    ensures ok <==> !Crashes(Snapshot(grid))
    ensures ok ==> forall i, j :: 0 <= i < newGrid.Length0 && 0 <= j < newGrid.Length1 ==> newGrid[i, j] == Next(Snapshot(grid), i, j)
  {
    var g := Snapshot(grid);
    ghost var plan := Plan(g);
    assert Plans(plan, g);
    newGrid := Create2DArray(grid.Length0, grid.Length1);
    ok := UpdateColumns(g, newGrid, plan);
    CrashesIffUnsafe(g);
  }
}
