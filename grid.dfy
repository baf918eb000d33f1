/** The cell grid shared by the three engines: materials, the value view of a
    grid and the allocation of a fresh one. */
module Grids {

  /** The materials a cell can hold. `Empty` stands both for a slot that was
      never written (`undefined`) and for an erased one (`0`); `Sand` is also
      the live state of the Game-of-Life engine, which uses the same code. */
  datatype Material = Empty | Sand | Fire | Concrete

  /** A snapshot of a grid, indexed `g[x][y]`: a sequence of columns, each
      holding the cells of rows 0 (top) to height-1 (floor). */
  type Grid = seq<seq<Material>>

  /** The number of columns of a grid (of cells, or of anything else). */
  function Width<T>(g: seq<seq<T>>): nat
  {
    |g|
  }

  /** The number of rows, read off column 0. */
  function Height<T>(g: seq<seq<T>>): nat
  {
    if |g| == 0 then 0 else |g[0]|
  }

  /** Every column has the same number of rows. */
  predicate IsGrid<T>(g: seq<seq<T>>)
  {
    forall x :: 0 <= x < |g| ==> |g[x]| == Height(g)
  }

  /** `grid[x][y]`, where a slot past the end of a column (or of the grid)
      reads as `Empty`, as `undefined` does in the source. */
  function Cell(g: Grid, x: int, y: int): Material
  {
    if 0 <= x < |g| && 0 <= y < |g[x]| then g[x][y] else Empty
  }

  /** The grid as a value, column by column. */
  function Snapshot(a: array2<Material>): (g: Grid)
    reads a
    ensures Width(g) == a.Length0 && IsGrid(g)
    ensures a.Length0 > 0 ==> Height(g) == a.Length1
    ensures forall x, y :: 0 <= x < a.Length0 && 0 <= y < a.Length1 ==> Cell(g, x, y) == a[x, y]
  {
    seq(a.Length0, x requires 0 <= x < a.Length0 reads a =>
      seq(a.Length1, y requires 0 <= y < a.Length1 reads a => a[x, y]))
  }

  /** `create2DArray`: `width` columns of `height` fresh, unset cells. The
      source allocates the inner arrays for `i < height` and reads `arr[0]`,
      so it gives this shape only for a non-empty square grid. */
  method Create2DArray(width: nat, height: nat) returns (a: array2<Material>)
    requires 0 < width == height
    ensures fresh(a) && a.Length0 == width && a.Length1 == height
    ensures forall x, y :: 0 <= x < width && 0 <= y < height ==> a[x, y] == Empty
  {
    a := new Material[width, height]((x, y) => Empty);
  }
}
