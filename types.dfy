/** The values shared by the maze generator and the game state: positions,
    generation cells, movements, the board glyphs, and square grids of them. */
module MazeTypes {

  /** The glyph of a wall on the render grid. */
  const WALL: char := '\U{2591}'
  /** The glyph of the player. */
  const SYMBOL: char := '\U{25CF}'
  /** The glyph of the goal. */
  const GOAL: char := '\U{2593}'
  /** An open render cell. */
  const BLANK: char := ' '

  datatype Movement = Up | Down | Left | Right

  /** A grid coordinate: `x` is the column, `y` the row. The same type
      serves for generation cells and for render cells. */
  datatype Position = Position(x: nat, y: nat)

  /** A generation cell: whether a wall separates it from the cell on its
      right and from the cell below it. */
  datatype BoardCell = BoardCell(wallRight: bool, wallBottom: bool)

  predicate InBounds(p: Position, n: nat) {
    p.x < n && p.y < n
  }

  /** `p` and `q` are orthogonal neighbours. */
  predicate Adjacent(p: Position, q: Position) {
    || (p.x == q.x && (p.y + 1 == q.y || q.y + 1 == p.y))
    || (p.y == q.y && (p.x + 1 == q.x || q.x + 1 == p.x))
  }

  /** `g` is an `n × n` grid, indexed `g[y][x]`. */
  ghost predicate IsSquare<T>(g: seq<seq<T>>, n: nat) {
    |g| == n && forall y :: 0 <= y < n ==> |g[y]| == n
  }

  /** The grid `g` with the cell at `p` replaced by `v`. */
  function SetAt<T>(g: seq<seq<T>>, n: nat, p: Position, v: T): (r: seq<seq<T>>)
    requires IsSquare(g, n) && InBounds(p, n)
    ensures IsSquare(r, n)
    ensures r[p.y][p.x] == v
    ensures forall y, x :: 0 <= y < n && 0 <= x < n && Position(x, y) != p ==> r[y][x] == g[y][x]
  {
    g[p.y := g[p.y][p.x := v]]
  }
}
