# FallingSand — a Dafny model of the cellular-automaton tick

The repository is a browser toy with three cellular automata. All three run on
the same integer grid, indexed `grid[x][y]` with row 0 at the top:

- **Falling sand** (`src/falling-sand/index.js`): sand, fire and concrete.
- **Game of Life** (`src/game-of-life/index.js`): Conway's rule, built from the
  falling-sand code.
- **Legacy engine** (`src/index.js`): the first, unclamped sand-and-fire engine.

Each tick allocates a fresh `newGrid`. It then walks the old grid with `x` as
the outer loop and `y` as the inner loop, and hands every cell to a rule that
reads only the old grid and writes only into `newGrid`. The rules read their
neighbours through directional predicates. `src/utils/gridUtils.js` holds eight
of them and their count, `checkNeighbours`. The falling-sand and Game-of-Life
engines each carry a copy of all nine. The legacy engine defines only six of
them (src/index.js:37-42): it has no `checkAboveLeft`, no `checkAboveRight` and
no `checkNeighbours`. Its six have the same guards, so the model uses the same
definitions for them.

## How the model is built

- `Grids` (`grid.dfy`) holds the basic types.
  - `Material` is `Empty | Sand | Fire | Concrete`. Both `undefined` and `0` are `Empty`.
  - A grid value is `seq<seq<Material>>`. A read past the end of a column reads as `Empty`, as `undefined` does.
  - The old grid is an `array2`, turned into a value by `Snapshot`.
- `Neighbours` (`neighbours.dfy`) holds the eight checks and `CheckNeighbours`.
  - The free variables `grid`, `leftWall`, `rightWall` and `floor` become the fields of a `Board`.
  - The guards are exactly as written in the source.
- `Writes` (`writes.dfy`) describes what a rule does as a list of writes.
  - A `Set` write goes through `setGrid`, which drops it unless `0 < x < width && 0 < y < height`.
  - A `Raw` write is a direct `newGrid[x][y] = m`.
  - `After` gives the value a cell holds after a list of writes: the last write that lands on it wins.
  - `SetGrid` and `PutIf` are the in-place writes on the `array2`.
- `Tick` (`tick.dfy`) lays out the writes of every cell in a plan of the grid's shape.
  - It concatenates them in visit order: column by column, top to bottom.
  - `Final` is the cell value after the whole tick.
  - `FinalIs` and `FinalAmong` are the two laws for the result: the last writer decides, and a cell holds only what some writer put there.
- `FallingSand`, `GameOfLife` and `Legacy` each hold one engine.
  - Each engine defines `CellWrites`: the writes of its `updateSand`, `updateFire`, `updateConcrete` or `updateEmpty`.
  - `Next(g, i, j)` is the engine's tick as a function: `Final` of that engine's plan.
  - The per-cell rules are methods that write `newGrid` in place. Each is proved to leave the grid described by its write list.
  - `UpdateGrid` runs the nested `for x` / `for y` loops. The loop invariant is that the new grid shows the writes of every cell visited so far.
  - So every `UpdateGrid` is proved to yield `Next` at every cell (in the legacy engine, when it does not throw), and leaves the old grid untouched.
- `FallingSandProperties` and the lemmas in `GameOfLife` and `Legacy` state what one tick does to a cell in terms of `Next`.

The legacy engine's `updateFire` (src/index.js:64-74) is the same code as the
falling-sand `updateFire`. The model uses `FallingSand.FireWrites` and
`FallingSand.UpdateFire` for both.

A slide in the legacy engine can write to column -1 or to column `width`. There
`newGrid[x]` is `undefined`, so the assignment throws a TypeError and the tick
returns no grid. `Legacy.UpdateGrid` returns `ok = false` in exactly those
cases.

Three facts about the code shape what the model proves:

- **`setGrid` drops column 0 and row 0.** Its guards are `x > 0` and `y > 0`, so writes there are dropped as well as writes outside the grid. So the falling-sand engine:
  - loses concrete in column 0 or row 0;
  - loses a grain in column 0, since every write it makes goes to column 0 or column -1;
  - loses a grain in row 0 that stays or burns (one that falls lands in row 1);
- **The sideways guards are lopsided.** They are `x - 1 >= leftWall` and `x + 1 < rightWall`. So a cell in column 1 does see column 0, and no cell sees the last column on its right. The falling-sand engine then also loses grains at the right wall: `checkBottomRight` never looks at the last column, so a blocked grain in the next-to-last column with down-left taken slides there whatever it holds. Concrete there, or a grain that stays there, is visited later and writes its own cell over the grain. A blocked grain in the last column itself with down-left taken slides to column `width`, and `setGrid` drops that write, so the grain is lost like its counterpart in column 0.
- **The legacy engine can crash at both walls.** A grain in column 0 resting on sand slides to column -1. A grain in the last column with sand below and below-left slides to column `width`. Both writes throw.

## Model

| member | source | states |
|---|---|---|
| Neighbours.CheckAbove | src/utils/gridUtils.js:4 | holds when the cell one row up is in the list and `y - 1 > 0`, so rows 0 and 1 never look up |
| Neighbours.CheckAboveLeft | src/utils/gridUtils.js:5 | holds when the cell up and to the left is in the list, with `y - 1 > 0` and `x - 1 >= leftWall` |
| Neighbours.CheckAboveRight | src/utils/gridUtils.js:6 | holds when the cell up and to the right is in the list, with `y - 1 > 0` and `x + 1 < rightWall` |
| Neighbours.CheckBottom | src/utils/gridUtils.js:7 | holds when the cell one row down is in the list and `y + 1 <= floor` |
| Neighbours.CheckBottomLeft | src/utils/gridUtils.js:8 | holds when the cell down and to the left is in the list and `x - 1 >= leftWall`, with no row guard |
| Neighbours.CheckBottomRight | src/utils/gridUtils.js:9 | holds when the cell down and to the right is in the list and `x + 1 < rightWall`, with no row guard |
| Neighbours.CheckLeft | src/utils/gridUtils.js:10 | holds when the cell on the left is in the list and `x - 1 >= leftWall` |
| Neighbours.CheckRight | src/utils/gridUtils.js:11 | holds when the cell on the right is in the list and `x + 1 < rightWall` |
| Neighbours.CheckNeighbours | src/utils/gridUtils.js:13-40 | the count of neighbours holding one of the materials is at most 8 |
| Neighbours.CountIsNumberHolding | src/utils/gridUtils.js:13-40 | `checkNeighbours` equals the number of the eight directions, in the source's order, whose check holds |
| Neighbours.ZeroIffNoneHolds | src/utils/gridUtils.js:13-40 | the count is 0 if and only if no directional check holds |
| Neighbours.NoUpperNeighbourNearTop | src/utils/gridUtils.js:4-6 | cells in rows 0 and 1 never see an upper neighbour, so row 0 is never counted from below |
| Neighbours.NoLeftNeighbourAtLeftWall | src/utils/gridUtils.js:5-10 | a cell on the left wall fails all three leftward checks |
| Neighbours.NoRightNeighbourNearRightWall | src/utils/gridUtils.js:6-11 | a cell with `x + 1 >= rightWall` fails all three rightward checks, so the last column is nobody's right neighbour |
| Neighbours.NoLowerNeighbourOnFloor | src/utils/gridUtils.js:7-9 | on the floor, `checkBottom` is guarded and the unguarded diagonals read past the column, so no lower neighbour is ever seen |
| Neighbours.NoNeighbourOfNoType | src/utils/gridUtils.js:4-40 | with an empty list of materials the count is 0 |
| Neighbours.CountMonotone | src/utils/gridUtils.js:4-40 | widening the list of materials never lowers the count |
| Grids.Create2DArray | src/falling-sand/index.js:31-38 | a fresh `width` x `height` grid whose every cell is unset (`Empty`) |
| Writes.XWithinGrid | src/falling-sand/index.js:43 | a column is within the grid when `0 < x < width`, so column 0 is excluded |
| Writes.YWithinGrid | src/falling-sand/index.js:44 | a row is within the grid when `0 < y < height`, so row 0 is excluded |
| Writes.SetGrid | src/falling-sand/index.js:86-94 | writes `m` at (x, y) exactly when `0 < x < width && 0 < y < height` and leaves every other cell, or the whole grid otherwise, unchanged |
| Writes.PutIf | src/falling-sand/index.js:117-125 | a guarded direct write `newGrid[x][y] = m`: when the guard holds the cell becomes `m`, every other cell keeps its value, and each cell holds what the one `Raw` write (or, when the guard fails, no write) leaves on its old value |
| Tick.FinalIs | src/falling-sand/index.js:132-153 | after the x-then-y walk, a cell holds what its last writer left there when every cell visited later writes nothing else there |
| Tick.FinalAmong | src/falling-sand/index.js:132-153 | a cell of the new grid is `Empty` or a material that some cell writes into it |
| FallingSand.SandWrites | src/falling-sand/index.js:97-114 | a grain makes one clamped write, of fire exactly when some neighbour burns (and then at its own cell), else of sand, at most one column sideways and one row down |
| FallingSand.FireWrites | src/falling-sand/index.js:116-126 | fire makes at most three direct writes, all of fire and none at its own cell: to the left if and only if `checkLeft` sees sand, to the right if and only if `checkRight` sees sand, and one row down if and only if that row is above the floor; on a grid every such write is in range |
| FallingSand.CellWrites | src/falling-sand/index.js:136-148 | the dispatch on the old cell: an empty cell writes nothing, no cell makes more than three writes, and no write is of `Empty` |
| FallingSand.UpdateSand | src/falling-sand/index.js:97-114 | the new grid afterwards holds exactly what the grain's write leaves on it |
| FallingSand.UpdateFire | src/falling-sand/index.js:116-126 | the new grid afterwards holds exactly what the fire's direct writes leave on it |
| FallingSand.UpdateConcrete | src/falling-sand/index.js:128-130 | concrete is written back at its own position through `setGrid` |
| FallingSand.UpdateCell | src/falling-sand/index.js:136-148 | the dispatch on the old cell adds that cell's writes, and an empty cell adds none |
| FallingSand.UpdateColumn | src/falling-sand/index.js:135-150 | the inner loop adds the writes of column x, top to bottom, to those of the columns on its left |
| FallingSand.UpdateColumns | src/falling-sand/index.js:134-151 | the outer loop leaves the new grid showing the writes of every cell in visit order |
| FallingSand.UpdateGrid | src/falling-sand/index.js:132-153 | returns a fresh grid equal to `Next` of the old grid at every cell, and the old grid is not modified |
| FallingSandProperties.Writers | src/falling-sand/index.js:97-130 | the only cells that can land a write on (i, j) are the cell itself (sand or concrete), the three grains above it, fire above it (unless that fire's next row is the floor), and fire beside sand at (i, j); fire writes fire, concrete writes concrete, a grain writes sand anywhere but its own cell, and its own cell gets sand or, when it burns, fire |
| FallingSandProperties.LastWriter | src/falling-sand/index.js:132-153 | the tick yields at (i, j) the value left there by a cell when no cell visited later lands a different material there |
| FallingSandProperties.OnlyWriters | src/falling-sand/index.js:132-153 | a new cell is `Empty` or one of the materials that can land on it |
| FallingSandProperties.EmptyStaysEmpty | src/falling-sand/index.js:132-153 | an all-empty grid yields an all-empty grid |
| FallingSandProperties.ConcreteStays | src/falling-sand/index.js:128-130 | concrete away from row 0 and column 0 is still there after the tick |
| FallingSandProperties.SandBurns | src/falling-sand/index.js:98-99 | a grain away from row 0 and column 0 with a burning neighbour is fire after the tick, in its own cell |
| FallingSandProperties.SandRestsOnFloor | src/falling-sand/index.js:100-101 | a grain on the floor with no fire around stays, unless fire in the unseen cell on its right spreads into it |
| FallingSandProperties.SandFalls | src/falling-sand/index.js:102-112 | a grain off column 0 with neither sand nor concrete below and no fire around is sand one row lower after the tick |
| FallingSandProperties.SandSlidesLeft | src/falling-sand/index.js:102-104 | a blocked grain goes down-left when `checkBottomLeft` fails |
| FallingSandProperties.SandSlidesRight | src/falling-sand/index.js:105-106 | a blocked grain with down-left taken goes down-right when `checkBottomRight` fails |
| FallingSandProperties.SandSlidesIntoLastColumn | src/falling-sand/index.js:102-106 | in the next-to-last column a blocked grain with down-left taken always slides into the last column, because `checkBottomRight` (src/utils/gridUtils.js:9) never looks there; it lands when that cell is empty or fire and no fire directly above it moves down |
| FallingSandProperties.RightWallGrainIsLost | src/falling-sand/index.js:105-106 | such a grain slides onto concrete in the last column, and the cell still holds concrete after the tick: the grain is lost |
| FallingSandProperties.SandStays | src/falling-sand/index.js:108-110 | a grain off row 0 and column 0 with all three cells below taken and no fire around stays where it is |
| FallingSandProperties.LeftWallGrainIsDropped | src/falling-sand/index.js:103-104 | a blocked grain in column 0 slides to column -1, and `setGrid` drops that write, so the grain lands nowhere |
| FallingSandProperties.RightWallGrainIsDropped | src/falling-sand/index.js:105-106 | a blocked grain in the last column with down-left taken slides to column `width`, since `checkBottomRight` never holds there, and `setGrid` drops that write, so the grain lands nowhere |
| FallingSandProperties.EdgesHoldOnlyFire | src/falling-sand/index.js:86-94 | row 0 and column 0 of the new grid hold only `Empty` or fire, because only fire writes without `setGrid` |
| FallingSandProperties.FireIgnitesLeft | src/falling-sand/index.js:117-119 | fire turns the grain on its left into fire |
| FallingSandProperties.FireIgnitesRight | src/falling-sand/index.js:120-122 | fire turns the grain on its right into fire, except in the last column in row 0: fire never looks at the last column, but a grain there sees the fire on its left and burns in its own cell, which `setGrid` drops only in row 0 |
| FallingSandProperties.FireFalls | src/falling-sand/index.js:123-125 | fire moves one row down when that row is above the floor and the cell there is empty or fire, so nothing visited later overwrites it |
| GameOfLife.SurvivorWrites | src/game-of-life/index.js:114-121 | a live cell writes its own cell: 1 if and only if it has two or three live neighbours, else 0 |
| GameOfLife.BirthWrites | src/game-of-life/index.js:123-128 | a dead cell writes 1 at its own cell if and only if it has exactly three live neighbours, and otherwise nothing |
| GameOfLife.OnlyOwnCell | src/game-of-life/index.js:114-128 | every cell makes at most one write, through `setGrid`, at its own position |
| GameOfLife.CellWrites | src/game-of-life/index.js:134-141 | the dispatch on the old cell: at most one write, a live cell always writes, and a dead cell writes only life |
| GameOfLife.NextIsGeneration | src/game-of-life/index.js:1-8 | one tick applies Conway's rule over the engine's one-sided neighbour count to every cell, with row 0 and column 0 dead |
| GameOfLife.EdgesStayDead | src/game-of-life/index.js:103-111 | row 0 and column 0 of the new grid are always dead |
| GameOfLife.EmptyStaysEmpty | src/game-of-life/index.js:130-146 | a grid without life stays without life |
| GameOfLife.HorizontalTurnsVertical | src/game-of-life/index.js:1-8 | a horizontal blinker far enough from the walls turns vertical in one tick |
| GameOfLife.VerticalTurnsHorizontal | src/game-of-life/index.js:1-8 | a vertical blinker far enough from the walls turns horizontal in one tick |
| GameOfLife.BlinkerPeriodTwo | src/game-of-life/index.js:1-8 | a horizontal blinker is back after two ticks |
| GameOfLife.UpdateSand | src/game-of-life/index.js:114-121 | the new grid afterwards holds exactly what the live cell's write leaves on it |
| GameOfLife.UpdateEmpty | src/game-of-life/index.js:123-128 | the new grid afterwards holds exactly what the dead cell's write, if any, leaves on it |
| GameOfLife.UpdateCell | src/game-of-life/index.js:134-141 | 1 is dispatched as live and every other value as dead, adding that cell's writes |
| GameOfLife.UpdateColumn | src/game-of-life/index.js:133-143 | the inner loop adds the writes of column x to those of the columns on its left |
| GameOfLife.UpdateColumns | src/game-of-life/index.js:132-144 | the outer loop leaves the new grid showing the writes of every cell |
| GameOfLife.UpdateGrid | src/game-of-life/index.js:130-146 | returns a fresh grid equal to `Next` of the old grid at every cell, and the old grid is untouched |
| GameOfLife.Reset | src/game-of-life/index.js:234 | a fresh grid without life, which the next tick keeps without life |
| Legacy.SandWrites | src/index.js:45-62 | a grain makes one direct write, of fire exactly when fire is directly above (and then at its own cell), else of sand, in a row that exists |
| Legacy.ThrowsExactly | src/index.js:50-58 | a cell's write throws if and only if it is a grain, not lit, resting on sand, and in column 0, or in the last column with sand below-left; fire never throws |
| Legacy.LeftWallCrash | src/index.js:51-52 | a grain in column 0 resting on sand crashes the tick |
| Legacy.RightWallCrash | src/index.js:53-54 | a grain in the last column on sand, with sand below-left, crashes the tick |
| Legacy.Writers | src/index.js:45-74 | the only cells that can land a write on (i, j) are the grain itself, the three grains above, fire above (unless that fire's next row is the floor), and fire beside sand at (i, j); fire writes fire, a grain writes sand anywhere but its own cell, and its own cell gets sand or, when lit from above, fire |
| Legacy.LastWriter | src/index.js:76-94 | the tick yields at (i, j) the value left there by a cell when no cell visited later lands a different material there |
| Legacy.EmptyStaysEmpty | src/index.js:76-94 | a grid without sand or fire never crashes and yields an all-empty grid |
| Legacy.SandBurnsFromAbove | src/index.js:46-47 | a grain with fire directly above is fire after the tick |
| Legacy.CellWrites | src/index.js:80-89 | the `switch` on the old cell: anything but sand and fire writes nothing, no cell makes more than three writes, and every write is of sand or fire |
| Legacy.SandRestsOnFloor | src/index.js:48-49 | a grain on the floor not lit from above stays, even with fire on its left, unless fire on its right spreads into it: fire on the left ignites the grain's cell but is visited first, and the grain writes sand back over it |
| Legacy.SandSlidesLeft | src/index.js:51-52 | a grain resting on sand goes down-left when that cell holds no sand (concrete does not block) |
| Legacy.SandSlidesRight | src/index.js:53-54 | with down-left taken, a grain goes down-right when `checkBottomRight` fails and the column exists, unless fire directly above the target moves in |
| Legacy.SandStays | src/index.js:56-58 | a grain with sand in all three cells below stays, unless fire on its right spreads into it |
| Legacy.SandFalls | src/index.js:59-60 | a grain not lit from above with no sand below is sand one row lower after the tick, whatever else is below |
| Legacy.FireIgnitesLeft | src/index.js:65-67 | fire turns the grain on its left into fire |
| Legacy.FireIgnitesRight | src/index.js:68-70 | away from the last column, fire turns the grain on its right into fire whenever that grain leaves its cell, by falling or by sliding down-left or down-right, rather than staying and writing sand back over the fire |
| Legacy.FireFalls | src/index.js:71-73 | fire moves one row down when that row is above the floor, the cell there is empty or fire, and there is no grain on the fire's right that could slide into it |
| Legacy.UpdateSand | src/index.js:45-62 | reports failure exactly when the grain's write would index a missing column, and then writes nothing; otherwise the new grid holds what the write leaves |
| Legacy.UpdateCell | src/index.js:80-89 | the dispatch adds the cell's writes (1 sand, 2 fire, anything else none) unless one of them throws, and reports which |
| Legacy.UpdateColumn | src/index.js:79-91 | the inner loop succeeds if and only if no cell of column x throws, and then has added the column's writes |
| Legacy.UpdateColumns | src/index.js:78-92 | the outer loop succeeds if and only if no cell of the grid throws, and then shows every cell's writes |
| Legacy.UpdateGrid | src/index.js:76-94 | fails if and only if the old grid makes some cell's write throw; otherwise returns a fresh grid equal to `Next` at every cell |

## Left out

- Rendering (`draw*`, `clearRect`, `anim`, `requestAnimationFrame`) is only a projection to pixels.
- DOM input is not modelled: mouse and keyboard handlers, the `setInterval` spawners, type selection and the speed slider. In the falling-sand and Game-of-Life engines a paint is one `setGrid` on the live grid, which `Writes.SetGrid` describes. The legacy `setGrid` (src/index.js:140-146) has no bounds guard: it writes directly inside a `try`/`catch`. It is not modelled. A paint there with `y >= height` lengthens a column, and the next `updateGrid` visits the longer column; a rectangular `array2` cannot hold such a grid.
- Game of Life timing is not modelled: `Date.now`, `timeToLive`, and the start/stop toggles decide when a tick runs, not what it does.
- `src/physics-ball/index.js` is not part of this model. It is floating-point kinematics driven by the clock.
- Logging is not modelled, nor the `try`/`catch` in the guarded `setGrid`. The catch is unreachable once its bounds guard holds on a grid whose columns all exist.
- The reassignment `grid = updateGrid()` of each frame, and `grid = create2DArray(...)` in `reset`, are left to the caller: `UpdateGrid` and `Reset` return the new array.
- The seeded grain `grid[0][0] = 1` is not modelled. Every tick lemma holds for any starting grid.
- Grids.Create2DArray: requires a non-empty square grid. The source allocates inner arrays for `i < height` and reads `arr[0]`, so any other shape leaves a missing column (the loop then fails) or adds extra columns. Every `UpdateGrid` and `Reset` inherits this requirement.
- Grids.Material: only the four values 0–3 (plus `undefined`) are modelled. Nothing in the source stores any other value. `Empty` stands for both `undefined` (a fresh cell, or a read past the end of a column) and a written `0`. The source's `types.includes` tells them apart, which is why `Neighbours.NoLowerNeighbourOnFloor` requires `Empty` to be absent from the type list. No engine passes either value in a type list, so nothing in the engines depends on the difference.
- The eight checks of `Neighbours`: a check on a board whose walls lie outside the grid reads a missing column as `Empty`, where the source would throw. The engines' own boards never do this.
- Legacy.UpdateGrid: a thrown TypeError is modelled as `ok = false`. Nothing is stated about the partly written new grid, which the source discards with the exception.
- Legacy.SandRestsOnFloor: requires no fire on the grain's right that spreads into it. That fire is visited later and writes over the grain; `Legacy.FireIgnitesLeft` and `Legacy.Writers` cover it.
- Legacy.SandSlidesRight: requires no fire directly above the target that moves down into it. That fire is visited later and writes over the grain; `Legacy.FireFalls` and `Legacy.Writers` cover it.
- Legacy.SandStays: requires no fire on the grain's right that spreads into it. That fire is visited later and writes over the grain; `Legacy.FireIgnitesLeft` and `Legacy.Writers` cover it.
- Legacy.FireIgnitesRight: requires that the grain on the right is above the floor and is not blocked on sand in all three cells below. Such a grain stays: it is visited after the fire, sees no fire above it, and writes sand back over the fire. It also requires the grain to be out of the last column, which the fire's `checkRight` never sees (src/index.js:42); such a grain is not ignited from the side.
- Legacy.FireFalls: requires no grain on the fire's right. Such a grain can slide down-left into the cell below the fire after the fire has moved there. It also requires the cell below to be empty or fire: concrete or a grain there is not covered.
- FallingSandProperties.SandSlidesLeft: requires `2 <= x`. A grain in column 1 slides into column 0, and `setGrid` drops that write (src/falling-sand/index.js:86-94). A grain in column 0 is `FallingSandProperties.LeftWallGrainIsDropped`.
- FallingSandProperties.SandSlidesRight: requires `1 <= x` and `x + 2 < width`. Column 0's writes are dropped by `setGrid`. The next-to-last column is `FallingSandProperties.SandSlidesIntoLastColumn`. In the last column the slide targets column `width` and is dropped: `FallingSandProperties.RightWallGrainIsDropped`.
- FallingSandProperties.SandSlidesIntoLastColumn: requires the target in the last column to hold empty or fire, and no fire directly above the target. Fire above moves down over the grain (src/falling-sand/index.js:123-125). Concrete in the target writes itself back (`FallingSandProperties.RightWallGrainIsLost`). A grain in the target that stays or burns writes its own cell over the slide. A grain there that falls away is not covered; the general case is `FallingSandProperties.LastWriter`.
- FallingSandProperties.SandRestsOnFloor: requires the grain to be out of column 0, whose writes `setGrid` drops. It also requires no fire in the last column when the grain is in the next-to-last column: the grain cannot see that fire, and the fire, visited later, spreads into it.
