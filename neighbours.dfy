/** The eight directional neighbour checks and their count. The walls and the
    floor, free variables of the library in the source, are fields of a
    `Board`. The bounds guards are kept exactly as written: rows 0 and 1 never
    look up, the last column is never seen as a right neighbour, and the
    bottom diagonals have no row guard. */
module Neighbours {
  import opened Grids

  datatype Board = Board(grid: Grid, leftWall: int, rightWall: int, floor: int)

  /** The board each engine uses: `leftWall = 0`, `rightWall = width - 1`,
      `floor = height - 1`. */
  function EngineBoard(g: Grid): Board
  {
    Board(g, 0, Width(g) - 1, Height(g) - 1)
  }

  predicate CheckAbove(b: Board, x: int, y: int, types: seq<Material>)
  {
    y - 1 > 0 && Cell(b.grid, x, y - 1) in types
  }

  predicate CheckAboveLeft(b: Board, x: int, y: int, types: seq<Material>)
  {
    y - 1 > 0 && x - 1 >= b.leftWall && Cell(b.grid, x - 1, y - 1) in types
  }

  predicate CheckAboveRight(b: Board, x: int, y: int, types: seq<Material>)
  {
    y - 1 > 0 && x + 1 < b.rightWall && Cell(b.grid, x + 1, y - 1) in types
  }

  predicate CheckBottom(b: Board, x: int, y: int, types: seq<Material>)
  {
    y + 1 <= b.floor && Cell(b.grid, x, y + 1) in types
  }

  predicate CheckBottomLeft(b: Board, x: int, y: int, types: seq<Material>)
  {
    x - 1 >= b.leftWall && Cell(b.grid, x - 1, y + 1) in types
  }

  predicate CheckBottomRight(b: Board, x: int, y: int, types: seq<Material>)
  {
    x + 1 < b.rightWall && Cell(b.grid, x + 1, y + 1) in types
  }

  predicate CheckLeft(b: Board, x: int, y: int, types: seq<Material>)
  {
    x - 1 >= b.leftWall && Cell(b.grid, x - 1, y) in types
  }

  predicate CheckRight(b: Board, x: int, y: int, types: seq<Material>)
  {
    x + 1 < b.rightWall && Cell(b.grid, x + 1, y) in types
  }

  datatype Direction = Above | AboveLeft | AboveRight | Bottom | BottomLeft | BottomRight | Left | Right

  /** The eight directions, in the order `checkNeighbours` tests them. */
  const AllDirections: seq<Direction> := [Above, AboveLeft, AboveRight, Bottom, BottomLeft, BottomRight, Left, Right]

  predicate Check(b: Board, d: Direction, x: int, y: int, types: seq<Material>)
  {
    match d
    case Above => CheckAbove(b, x, y, types)
    case AboveLeft => CheckAboveLeft(b, x, y, types)
    case AboveRight => CheckAboveRight(b, x, y, types)
    case Bottom => CheckBottom(b, x, y, types)
    case BottomLeft => CheckBottomLeft(b, x, y, types)
    case BottomRight => CheckBottomRight(b, x, y, types)
    case Left => CheckLeft(b, x, y, types)
    case Right => CheckRight(b, x, y, types)
  }

  /** How many of the directions `AllDirections[k..]` hold. */
  function CountHolding(b: Board, k: nat, x: int, y: int, types: seq<Material>): nat
    decreases |AllDirections| - k
  {
    if k >= |AllDirections| then 0
    else (if Check(b, AllDirections[k], x, y, types) then 1 else 0) + CountHolding(b, k + 1, x, y, types)
  }

  /** `checkNeighbours`: one for each directional check that holds. */
  function CheckNeighbours(b: Board, x: int, y: int, types: seq<Material>): (total: nat)
    ensures total <= 8
  {
    (if CheckAbove(b, x, y, types) then 1 else 0) +
    (if CheckAboveLeft(b, x, y, types) then 1 else 0) +
    (if CheckAboveRight(b, x, y, types) then 1 else 0) +
    (if CheckBottom(b, x, y, types) then 1 else 0) +
    (if CheckBottomLeft(b, x, y, types) then 1 else 0) +
    (if CheckBottomRight(b, x, y, types) then 1 else 0) +
    (if CheckLeft(b, x, y, types) then 1 else 0) +
    (if CheckRight(b, x, y, types) then 1 else 0)
  }

  /** `checkNeighbours` counts exactly the directions that hold. */
  lemma CountIsNumberHolding(b: Board, x: int, y: int, types: seq<Material>)
    ensures CheckNeighbours(b, x, y, types) == CountHolding(b, 0, x, y, types)
  {
  }

  /** `checkNeighbours` is zero exactly when no direction holds. */
  lemma ZeroIffNoneHolds(b: Board, x: int, y: int, types: seq<Material>)
    ensures CheckNeighbours(b, x, y, types) == 0 <==> forall d :: !Check(b, d, x, y, types)
  {
    if CheckNeighbours(b, x, y, types) == 0 {
      forall d ensures !Check(b, d, x, y, types) {
        match d
        case Above =>
        case AboveLeft =>
        case AboveRight =>
        case Bottom =>
        case BottomLeft =>
        case BottomRight =>
        case Left =>
        case Right =>
      }
    } else {
      var d :| d in AllDirections && Check(b, d, x, y, types) by {
        if CheckAbove(b, x, y, types) { assert Check(b, Above, x, y, types); }
        else if CheckAboveLeft(b, x, y, types) { assert Check(b, AboveLeft, x, y, types); }
        else if CheckAboveRight(b, x, y, types) { assert Check(b, AboveRight, x, y, types); }
        else if CheckBottom(b, x, y, types) { assert Check(b, Bottom, x, y, types); }
        else if CheckBottomLeft(b, x, y, types) { assert Check(b, BottomLeft, x, y, types); }
        else if CheckBottomRight(b, x, y, types) { assert Check(b, BottomRight, x, y, types); }
        else if CheckLeft(b, x, y, types) { assert Check(b, Left, x, y, types); }
        else { assert Check(b, Right, x, y, types); }
      }
    }
  }

  /** Rows 0 and 1 never look upward, so row 0 is never an upper neighbour. */
  lemma NoUpperNeighbourNearTop(b: Board, x: int, y: int, types: seq<Material>)
    requires y <= 1
    ensures !CheckAbove(b, x, y, types) && !CheckAboveLeft(b, x, y, types) && !CheckAboveRight(b, x, y, types)
  {
  }

  /** A cell on the left wall never looks left. */
  lemma NoLeftNeighbourAtLeftWall(b: Board, x: int, y: int, types: seq<Material>)
    requires x == b.leftWall
    ensures !CheckAboveLeft(b, x, y, types) && !CheckBottomLeft(b, x, y, types) && !CheckLeft(b, x, y, types)
  {
  }

  /** A cell with `x + 1 >= rightWall` never looks right: on an engine board
      the last column is nobody's right neighbour. */
  lemma NoRightNeighbourNearRightWall(b: Board, x: int, y: int, types: seq<Material>)
    requires x + 1 >= b.rightWall
    ensures !CheckAboveRight(b, x, y, types) && !CheckBottomRight(b, x, y, types) && !CheckRight(b, x, y, types)
  {
  }

  /** On the floor of an engine board nothing below is seen: `checkBottom` is
      guarded, and the diagonals read past the end of their column. */
  lemma NoLowerNeighbourOnFloor(g: Grid, x: int, types: seq<Material>)
    requires IsGrid(g) && Empty !in types
    ensures var b := EngineBoard(g);
      !CheckBottom(b, x, b.floor, types) && !CheckBottomLeft(b, x, b.floor, types) && !CheckBottomRight(b, x, b.floor, types)
  {
    var b := EngineBoard(g);
    assert Cell(g, x - 1, b.floor + 1) == Empty;
    assert Cell(g, x + 1, b.floor + 1) == Empty;
  }

  /** Against an empty list of materials nothing is counted. */
  lemma NoNeighbourOfNoType(b: Board, x: int, y: int)
    ensures CheckNeighbours(b, x, y, []) == 0
  {
  }

  /** Widening the list of materials never lowers the count. */
  lemma CountMonotone(b: Board, x: int, y: int, types: seq<Material>, more: seq<Material>)
    requires forall t :: t in types ==> t in more
    ensures CheckNeighbours(b, x, y, types) <= CheckNeighbours(b, x, y, more)
  {
  }
}
