# mazeme maze core in Dafny

mazeme is a terminal maze game. This project models its core:

- The maze generator `generate_maze` carves a square grid of cells with a randomized depth-first walk. Each cell holds a right-wall flag and a bottom-wall flag. The walk starts from the centre cell and keeps a backtracking stack, a visited set and a `popped` flag.
- `convert_generated_maze` draws that cell grid as the `(2n - 1)`-square character grid the player sees. Cell `(x, y)` lands at `(2x, 2y)`. Walls go in the gaps between cells, and every interior corner is a wall.
- `GameState` holds the board, the player's position, the goal (the bottom-right corner) and the victory latch. `move_position` moves the player one step unless the game is won or the target is a wall.

Modules:

- `MazeTypes` (`types.dfy`): positions, cells, movements, the glyphs `WALL`, `SYMBOL` and `GOAL`, and square grids of them.
- `Reachability` (`reachability.dfy`): open paths through a cell grid, and the lemmas that turn a spanning tree into reachability.
- `Gen` (`gen.dfy`): `generate_maze`. The loop is a `while` loop over the grid, the stack, the visited set and the flag. One pass is `CarveStep`, and the neighbour scan is `ScanNeighbours`. The pass is specified by the function `Marked`, which gives the grid after one pass, and by the predicate `Moved`, which gives how the walk moves on. The loop invariant `Carving` carries a ghost spanning tree of the cells reached so far.
- `Game` (`game.dfy`): `convert_generated_maze`, which fills the grid in nested `for` loops and is specified by the predicate `Drawn`, and the class `GameState`, whose invariant `Valid` says the game is consistent and still winnable.

Beyond the promises the code itself makes, two things are proved:

- every cell of a generated maze is reachable from the centre;
- so the drawn board always has an open walk from the player's start to the goal.

Grids are `seq<seq<_>>` indexed `g[y][x]`. In-place writes to a `Vec<Vec<_>>` become reassignments with `SetAt`.

## Model

| member | source | states |
|---|---|---|
| Gen.GenSize | src/game_state/gen.rs:11 | The generation grid has side at least 1, and no larger than the requested board size once that is at least 2. |
| Gen.Start | src/game_state/gen.rs:16-19 | The walk starts at the centre cell `(n/2, n/2)`, which lies inside the grid. |
| Gen.ScanRank | src/game_state/gen.rs:28-75 | The scan order up, left, down, right ranks exactly the four orthogonal neighbours below 4. |
| Gen.ScanOne | src/game_state/gen.rs:34-38 | Scanning one neighbour appends it to `moves` when it is unvisited; otherwise it walls the shared edge, unless the last pass was a pop or the neighbour is the stack top. Either way the grid becomes `Marked` extended by that neighbour's rank. |
| Gen.ScanNeighbour | src/game_state/gen.rs:29-75 | Each of the four guarded neighbour blocks extends the marked grid and the `moves` list by one rank. A neighbour outside the grid adds nothing. |
| Gen.ScanNeighbours | src/game_state/gen.rs:27-75 | After the scan, the grid is `Marked` for this pass. `moves` holds exactly the in-grid, unvisited neighbours of `pos`. |
| Gen.ScanStarts | src/game_state/gen.rs:27 | Before any neighbour is scanned, nothing is marked. |
| Gen.ScanCovers | src/game_state/gen.rs:28-75 | Scanning all four ranks yields the whole pass's walls. |
| Gen.ScanSkips | src/game_state/gen.rs:29-75 | A neighbour that gets no wall, or that lies outside the grid, leaves the grid unchanged. |
| Gen.ScanWalls | src/game_state/gen.rs:34-74 | Walling a neighbour sets exactly one flag on the lower/left cell of the edge and changes nothing else. |
| Gen.MarkedWallBetween | src/game_state/gen.rs:34-74 | After a pass, two adjacent cells are separated exactly when they were before, or when one is `pos` and the other is visited, is not the stack top, and the pass does not follow a pop. |
| Gen.MarkedOnlyAdds | src/game_state/gen.rs:34-74 | Wall flags only go from false to true. |
| Gen.MarkedAfterPop | src/game_state/gen.rs:34-87 | A pass right after a pop writes no wall. |
| Gen.MarkedKeepsBorder | src/game_state/gen.rs:53-74 | No pass sets `wall_right` in the last column or `wall_bottom` in the last row. |
| Gen.CarveStep | src/game_state/gen.rs:25-87 | One pass: `pos` becomes visited and the grid becomes `Marked`. Then there are two cases. If an unvisited neighbour exists, `pos` is pushed and one such neighbour is chosen. Otherwise the stack top is popped, and at that point `pos` has no unvisited neighbour. |
| Gen.StackStep | src/game_state/gen.rs:77-87 | A pass keeps the stack invariant. Stacked cells are visited or current. The current cell is visited exactly when it came from a pop. A visited cell that is off the stack and not current has no unvisited neighbour. |
| Gen.WallStep | src/game_state/gen.rs:34-74 | A pass keeps every wall between two visited cells and none facing outside. |
| Gen.TreeStepForward | src/game_state/gen.rs:77-83 | A push adds the new cell to the spanning tree, as a child of the cell it was reached from. |
| Gen.TreeStepBack | src/game_state/gen.rs:84-87 | A pop keeps the spanning tree. |
| Gen.TreeOpenStep | src/game_state/gen.rs:34-83 | A pass never walls a tree edge, and the edge to a freshly reached cell has no wall. |
| Gen.CarvingStep | src/game_state/gen.rs:24-88 | A pass keeps the loop invariant. It either reaches a new cell or shortens the stack, so the loop terminates. |
| Gen.CarvingStarts | src/game_state/gen.rs:11-23 | The initial state is an all-false grid, nothing visited, and the centre alone on the stack. It satisfies the loop invariant. |
| Gen.CarveReachesAll | src/game_state/gen.rs:24 | When the loop stops, every cell has been reached. Either the stack is empty, or `board_size²` cells were visited, which covers the grid. |
| Gen.TreeSpans | src/game_state/gen.rs:24-88 | A wall-free spanning tree over all cells makes every cell reachable from the centre. |
| Gen.CarvingDone | src/game_state/gen.rs:89 | On exit, the grid is square, no wall faces outside, and every cell is reachable from the centre. |
| Gen.GenerateMaze | src/game_state/gen.rs:10-90 | The maze is a `gen_size`-square grid. No `wall_right` is set in the last column and no `wall_bottom` in the last row. Every cell is reachable from the centre through open edges. |
| Reachability.CertificateConnects | src/game_state/gen.rs:77-87 | Following the parents of a depth-decreasing, wall-free tree from any cell is an open path from the root. |
| Reachability.ClosedCoversGrid | src/game_state/gen.rs:24 | A non-empty set of cells that is closed under open neighbours contains the whole grid. |
| Reachability.FullGrid | src/game_state/gen.rs:24 | A set of `n²` or more cells of the `n`-square grid contains every cell. |
| Game.RenderSize | src/game_state.rs:113 | The render side is `2n - 1`, an odd number. |
| Game.DrawCell | src/game_state.rs:118-142 | Drawing cell `(x, y)` writes its glyphs into its own `2×2` block and leaves every other render cell unchanged. The block gets its bottom wall when `y < n-1`, its right wall when `x < n-1` or in the last row, and the diagonal corner when both `x` and `y` are below `n-1`. |
| Game.ConvertGeneratedMaze | src/game_state.rs:111-146 | The result is `(2n-1)`-square and draws the cells. Every glyph is `WALL` or blank. Cells are blank. Interior corners are `WALL`. The glyph between two neighbours is `WALL` exactly when a wall flag separates them. |
| Game.GlyphsDraw | src/game_state.rs:120-141 | The per-cell glyph layout gives all the properties `Drawn` states. |
| Game.LiftPath | src/game_state.rs:118-142 | An open path through the cells becomes a wall-free walk through the render grid. |
| Game.LiftStep | src/game_state.rs:123-141 | The gap between two neighbours that no wall separates is open. |
| Game.DrawnMazeWinnable | src/game_state.rs:42 | A drawn maze whose cells are all connected has an open walk from the top-left to the bottom-right render cell. |
| Game.DrawNewMaze | src/game_state.rs:42 | The board drawn for a request draws a carved `gen_size`-square cell grid. That grid has no outward wall, and every cell in it is reachable from the centre. The board is `(2·gen_size - 1)`-square, holds only walls and blanks, has blank corners, and has an open walk from corner to corner. |
| Game.DrawnCorners | src/game_state.rs:114-121 | A drawn grid holds only walls and blanks, and its top-left and bottom-right cells are blank. |
| Game.Target | src/game_state.rs:61-80 | The candidate is one step in the move's direction when that stays on the board. Otherwise it is the current position: UP at `y = 0`, LEFT at `x = 0`, DOWN at the last row, RIGHT at the last column. There is no wrap-around. |
| Game.TargetIsNear | src/game_state.rs:67-80 | The candidate is the current cell or an orthogonal neighbour. |
| Game.ReachFromNeighbour | src/game_state.rs:82-86 | A step onto an open neighbour keeps the goal reachable. |
| Game.StartPlayable | src/game_state.rs:54-55 | Stamping `SYMBOL` at `(0,0)` and then `GOAL` at the corner yields a consistent game. |
| Game.MovePlayable | src/game_state.rs:82-90 | An accepted move keeps the game consistent. It wins exactly on the goal. |
| Game.GameState.constructor | src/game_state.rs:41-58 | The player is at `(0,0)`, the goal at `(len-1, len-1)`, and `victory` is false. `GOAL` is on the goal cell, `SYMBOL` on the player's cell unless that is the goal, and the drawn maze `maze` everywhere else. `maze` draws a carved `gen_size`-square cell grid `cells` (`Drawn`), so it holds only walls and blanks. That grid has no outward wall, and every cell in it is reachable from the centre. The game is consistent and the goal reachable. |
| Game.GameState.IsValidMove | src/game_state.rs:96-98 | A move is allowed exactly when the game is not won and the target is not a wall. |
| Game.GameState.IsWinPosition | src/game_state.rs:100-102 | The player has won exactly when standing on the bottom-right corner. |
| Game.GameState.Advance | src/game_state.rs:83-90 | The old cell becomes blank and the new one `SYMBOL`; no other cell changes. The player moves to the target, `victory` becomes whether that is the goal, and the goal never moves. |
| Game.GameState.MovePosition | src/game_state.rs:61-91 | If the game is won or the candidate is a wall, board, position and victory are unchanged. Otherwise the move is applied as in `Advance`. The game stays consistent and the goal stays reachable. |

## Left out

- The random index choice (`rand::thread_rng().gen_range`, gen.rs:81-82) is modelled as an arbitrary index into `moves`, so every property holds for every choice.
- `HashSet` hashing is not modelled. The visited set is a mathematical `set<Position>`.
- `Vec` mutation in place is modelled by reassigning immutable sequences. No two grids alias in the source either.
- Gen.ScanNeighbours: states which cells `moves` holds but not their order. The order is up, left, down, right, and `ScanOne` states it per step. No property depends on it, because the choice among `moves` is arbitrary.
- `usize` overflow is not modelled; integers are unbounded. The affected expressions are `board_size.pow(2)` (gen.rs:24) and `2 * len - 1` (game_state.rs:113), which only overflow for board sizes no terminal can show.
- Game.ConvertGeneratedMaze: requires a non-empty grid and no `wall_right` on the bottom-right cell. On an empty grid the source panics at line 113. With that wall set it indexes one past the grid at line 140. The generator never produces either, as `GenerateMaze` proves.
- Game.GameState.IsValidMove: requires an in-bounds target, as the source indexes the board with it. `Target` guarantees that for every move.
- Terminal rendering, keyboard input, the timer thread and the channel plumbing (`render.rs`, `main.rs`) are I/O and concurrency, so they are not part of this model.
- The `Clock` and `StateEvent` machinery is referenced by `main.rs` and `render.rs`, but it is not defined in `game_state.rs`, so it is not part of this model.
