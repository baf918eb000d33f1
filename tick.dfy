/** The shape every engine's `updateGrid` shares: a fresh buffer, filled by
    visiting the old grid with `x` as the outer and `y` as the inner loop, each
    cell contributing its writes; the last write to land on a cell wins. The
    writes of every cell are laid out in a plan, `plan[x][y]`, of the same
    shape as the grid. */
module Tick {
  import opened Grids
  import opened Writes

  type Plan = seq<seq<seq<Write>>>

  /** The writes of cell (x, y); a cell outside the plan writes nothing. */
  function At(plan: Plan, x: int, y: int): seq<Write>
  {
    if 0 <= x < |plan| && 0 <= y < |plan[x]| then plan[x][y] else []
  }

  /** The writes of cells (x, 0) .. (x, n - 1), in visit order. */
  function ColumnWrites(plan: Plan, x: int, n: int): seq<Write>
    decreases n
  {
    if n <= 0 then [] else ColumnWrites(plan, x, n - 1) + At(plan, x, n - 1)
  }

  /** The writes of columns 0 .. m - 1, in visit order. */
  function GridWrites(plan: Plan, m: int): seq<Write>
    decreases m
  {
    if m <= 0 then [] else GridWrites(plan, m - 1) + ColumnWrites(plan, m - 1, Height(plan))
  }

  /** All writes of one tick. */
  function TickWrites(plan: Plan): seq<Write>
  {
    GridWrites(plan, Width(plan))
  }

  /** Cell (i, j) of the grid one tick produces. */
  function Final(plan: Plan, i: int, j: int): Material
  {
    After(TickWrites(plan), Width(plan), Height(plan), i, j, Empty)
  }

  /** One more cell of column x: what the inner loop of a tick adds. */
  lemma ColumnStep(plan: Plan, done: seq<Write>, x: int, y: int)
    requires 0 <= y
    ensures done + ColumnWrites(plan, x, y + 1) == done + ColumnWrites(plan, x, y) + At(plan, x, y)
  {
  }

  /** A whole column: what the outer loop of a tick adds. */
  lemma GridStep(plan: Plan, x: int)
    requires 0 <= x
    ensures GridWrites(plan, x) + ColumnWrites(plan, x, 0) == GridWrites(plan, x)
    ensures GridWrites(plan, x) + ColumnWrites(plan, x, Height(plan)) == GridWrites(plan, x + 1)
  {
  }

  predicate InGrid<T>(g: seq<seq<T>>, x: int, y: int)
  {
    0 <= x < Width(g) && 0 <= y < Height(g)
  }

  /** Cell (x', y') is visited after cell (x, y). */
  predicate VisitedAfter(x': int, y': int, x: int, y: int)
  {
    x' > x || (x' == x && y' > y)
  }

  /** Some write of cell (x, y) lands on cell (i, j). */
  predicate Touches(plan: Plan, x: int, y: int, i: int, j: int)
  {
    exists k :: 0 <= k < |At(plan, x, y)| && Lands(At(plan, x, y)[k], Width(plan), Height(plan), i, j)
  }

  /** Every write of cell (x, y) that lands on (i, j) writes a member of `s`. */
  predicate OnlyWrites(plan: Plan, x: int, y: int, i: int, j: int, s: set<Material>)
  {
    Within(At(plan, x, y), Width(plan), Height(plan), i, j, s)
  }

  lemma {:induction false} ColumnWithin(plan: Plan, x: int, n: int, i: int, j: int, s: set<Material>)
    requires forall y :: 0 <= y < n ==> OnlyWrites(plan, x, y, i, j, s)
    ensures Within(ColumnWrites(plan, x, n), Width(plan), Height(plan), i, j, s)
    decreases n
  {
    if n > 0 {
      ColumnWithin(plan, x, n - 1, i, j, s);
      assert OnlyWrites(plan, x, n - 1, i, j, s);
      WithinAppend(ColumnWrites(plan, x, n - 1), At(plan, x, n - 1), Width(plan), Height(plan), i, j, s);
    }
  }

  lemma {:induction false} GridWithin(plan: Plan, m: int, i: int, j: int, s: set<Material>)
    requires m <= Width(plan)
    requires forall x, y :: InGrid(plan, x, y) ==> OnlyWrites(plan, x, y, i, j, s)
    ensures Within(GridWrites(plan, m), Width(plan), Height(plan), i, j, s)
    decreases m
  {
    if m > 0 {
      GridWithin(plan, m - 1, i, j, s);
      var c := m - 1;
      forall y | 0 <= y < Height(plan) ensures OnlyWrites(plan, c, y, i, j, s) {
        assert InGrid(plan, c, y);
      }
      ColumnWithin(plan, c, Height(plan), i, j, s);
      WithinAppend(GridWrites(plan, c), ColumnWrites(plan, c, Height(plan)), Width(plan), Height(plan), i, j, s);
    }
  }

  /** If every write that can land on (i, j) writes a member of `s`, the new
      cell is `Empty` or a member of `s`. */
  lemma FinalAmong(plan: Plan, i: int, j: int, s: set<Material>)
    requires forall x, y :: InGrid(plan, x, y) ==> OnlyWrites(plan, x, y, i, j, s)
    ensures Final(plan, i, j) == Empty || Final(plan, i, j) in s
  {
    GridWithin(plan, Width(plan), i, j, s);
    AfterWithin(TickWrites(plan), Width(plan), Height(plan), i, j, Empty, s);
  }

  lemma {:induction false} ColumnTail(plan: Plan, x: int, y: int, n: int, i: int, j: int, v: Material, d: Material)
    requires 0 <= y < n
    requires Touches(plan, x, y, i, j)
    requires After(At(plan, x, y), Width(plan), Height(plan), i, j, Empty) == v
    requires forall y' :: y < y' < n ==> OnlyWrites(plan, x, y', i, j, {v})
    ensures After(ColumnWrites(plan, x, n), Width(plan), Height(plan), i, j, d) == v
    decreases n
  {
    var prev, cell := ColumnWrites(plan, x, n - 1), At(plan, x, n - 1);
    if n == y + 1 {
      AfterDecides(prev, cell, Width(plan), Height(plan), i, j, d);
    } else {
      ColumnTail(plan, x, y, n - 1, i, j, v, d);
      assert OnlyWrites(plan, x, n - 1, i, j, {v});
      AfterKeeps(prev, cell, Width(plan), Height(plan), i, j, d, v);
    }
  }

  /** The column of the last writer: it ends with `v` at (i, j). */
  lemma TailColumn(plan: Plan, x: int, y: int, i: int, j: int, v: Material)
    requires InGrid(plan, x, y)
    requires Touches(plan, x, y, i, j)
    requires After(At(plan, x, y), Width(plan), Height(plan), i, j, Empty) == v
    requires forall y' :: y < y' < Height(plan) ==> OnlyWrites(plan, x, y', i, j, {v})
    ensures After(GridWrites(plan, x + 1), Width(plan), Height(plan), i, j, Empty) == v
  {
    var prev, col := GridWrites(plan, x), ColumnWrites(plan, x, Height(plan));
    var e := After(prev, Width(plan), Height(plan), i, j, Empty);
    ColumnTail(plan, x, y, Height(plan), i, j, v, e);
    AfterAppend(prev, col, Width(plan), Height(plan), i, j, Empty);
  }

  /** A later column that puts nothing but `v` at (i, j) keeps it there. */
  lemma TailKept(plan: Plan, c: int, i: int, j: int, v: Material)
    requires 0 <= c
    requires After(GridWrites(plan, c), Width(plan), Height(plan), i, j, Empty) == v
    requires forall y' :: 0 <= y' < Height(plan) ==> OnlyWrites(plan, c, y', i, j, {v})
    ensures After(GridWrites(plan, c + 1), Width(plan), Height(plan), i, j, Empty) == v
  {
    ColumnWithin(plan, c, Height(plan), i, j, {v});
    AfterKeeps(GridWrites(plan, c), ColumnWrites(plan, c, Height(plan)), Width(plan), Height(plan), i, j, Empty, v);
  }

  lemma {:induction false} GridTail(plan: Plan, x: int, y: int, m: int, i: int, j: int, v: Material)
    requires 0 <= x < m <= Width(plan) && InGrid(plan, x, y)
    requires Touches(plan, x, y, i, j)
    requires After(At(plan, x, y), Width(plan), Height(plan), i, j, Empty) == v
    requires forall x', y' :: InGrid(plan, x', y') && x' < m && VisitedAfter(x', y', x, y) ==> OnlyWrites(plan, x', y', i, j, {v})
    ensures After(GridWrites(plan, m), Width(plan), Height(plan), i, j, Empty) == v
    decreases m
  {
    var c := m - 1;
    if c == x {
      forall y' | y < y' < Height(plan) ensures OnlyWrites(plan, x, y', i, j, {v}) {
        assert InGrid(plan, x, y') && VisitedAfter(x, y', x, y);
      }
      TailColumn(plan, x, y, i, j, v);
    } else {
      GridTail(plan, x, y, c, i, j, v);
      forall y' | 0 <= y' < Height(plan) ensures OnlyWrites(plan, c, y', i, j, {v}) {
        assert InGrid(plan, c, y') && VisitedAfter(c, y', x, y);
      }
      TailKept(plan, c, i, j, v);
    }
  }

  /** The last writer decides: if cell (x, y) lands a write on (i, j), leaving
      `v` there, and every cell visited later writes nothing but `v` there, the
      new cell holds `v`. */
  lemma FinalIs(plan: Plan, x: int, y: int, i: int, j: int, v: Material)
    requires InGrid(plan, x, y)
    requires Touches(plan, x, y, i, j)
    requires After(At(plan, x, y), Width(plan), Height(plan), i, j, Empty) == v
    requires forall x', y' :: InGrid(plan, x', y') && VisitedAfter(x', y', x, y) ==> OnlyWrites(plan, x', y', i, j, {v})
    ensures Final(plan, i, j) == v
  {
    GridTail(plan, x, y, Width(plan), i, j, v);
  }
}
