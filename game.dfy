/** The playable board: the generated cells drawn as a character grid, and
    the player's state as it moves over that grid towards the goal. */
module Game {
  import opened MazeTypes
  import opened Reachability
  import opened Gen

  /** The side of the character grid drawn from an `n`-square cell grid. */
  function RenderSize(n: nat): (m: nat)
    requires n >= 1
    ensures m % 2 == 1 && m + 1 == 2 * n
  {
    2 * n - 1
  }

  /** The glyph of render cell `(rx, ry)`. Cell `(x, y)` sits at
      `(2x, 2y)` and is open; the cell to its right and the cell below it
      hold its right and bottom walls; the diagonal corners are walls. */
  ghost function Glyph(g: seq<seq<BoardCell>>, n: nat, ry: nat, rx: nat): char
    requires n >= 1 && IsSquare(g, n) && ry < RenderSize(n) && rx < RenderSize(n)
  {
    if ry % 2 == 0 && rx % 2 == 0 then BLANK
    else if ry % 2 == 1 && rx % 2 == 1 then WALL
    else if ry % 2 == 1 then (if g[ry / 2][rx / 2].wallBottom then WALL else BLANK)
    else (if g[ry / 2][rx / 2].wallRight then WALL else BLANK)
  }

  /** The render cell between two adjacent generation cells. */
  function Between(a: Position, b: Position): Position {
    Position(a.x + b.x, a.y + b.y)
  }

  /** The render cell of generation cell `c`. */
  function Spot(c: Position): Position {
    Position(2 * c.x, 2 * c.y)
  }

  /** `render` draws the cell grid `g`: every glyph is a wall or blank;
      cells are blank, interior corners are walls, and the glyph between two
      adjacent cells is a wall exactly when `g` separates them. */
  ghost predicate Drawn(render: seq<seq<char>>, g: seq<seq<BoardCell>>, n: nat)
    requires n >= 1 && IsSquare(g, n) && IsSquare(render, RenderSize(n))
  {
    && (forall ry: nat, rx: nat :: ry < RenderSize(n) && rx < RenderSize(n) ==>
          render[ry][rx] == WALL || render[ry][rx] == BLANK)
    && (forall c :: InBounds(c, n) ==> render[Spot(c).y][Spot(c).x] == BLANK)
    && (forall y: nat, x: nat :: y + 1 < n && x + 1 < n ==> render[2 * y + 1][2 * x + 1] == WALL)
    && (forall a, b :: InBounds(a, n) && InBounds(b, n) && Adjacent(a, b) ==>
          (render[Between(a, b).y][Between(a, b).x] == WALL <==> WallBetween(g, n, a, b)))
  }

  /** A grid holding the glyphs of `g` draws `g`. */
  lemma GlyphsDraw(render: seq<seq<char>>, g: seq<seq<BoardCell>>, n: nat)
    requires n >= 1 && IsSquare(g, n) && IsSquare(render, RenderSize(n))
    requires forall ry: nat, rx: nat :: ry < RenderSize(n) && rx < RenderSize(n) ==>
               render[ry][rx] == Glyph(g, n, ry, rx)
    ensures Drawn(render, g, n)
  {
    forall c | InBounds(c, n)
      ensures render[Spot(c).y][Spot(c).x] == BLANK
    {
      assert Glyph(g, n, 2 * c.y, 2 * c.x) == BLANK;
    }
    forall y: nat, x: nat | y + 1 < n && x + 1 < n
      ensures render[2 * y + 1][2 * x + 1] == WALL
    {
      assert Glyph(g, n, 2 * y + 1, 2 * x + 1) == WALL;
    }
    forall a, b | InBounds(a, n) && InBounds(b, n) && Adjacent(a, b)
      ensures render[Between(a, b).y][Between(a, b).x] == WALL <==> WallBetween(g, n, a, b)
    {
      var m := Between(a, b);
      if a.x + 1 == b.x {
        assert m.y / 2 == a.y && m.x / 2 == a.x && m.y % 2 == 0 && m.x % 2 == 1;
      } else if b.x + 1 == a.x {
        assert m.y / 2 == b.y && m.x / 2 == b.x && m.y % 2 == 0 && m.x % 2 == 1;
      } else if a.y + 1 == b.y {
        assert m.y / 2 == a.y && m.x / 2 == a.x && m.y % 2 == 1 && m.x % 2 == 0;
      } else {
        assert m.y / 2 == b.y && m.x / 2 == b.x && m.y % 2 == 1 && m.x % 2 == 0;
      }
    }
  }

  /** Draws the generation cell `(x, y)`: its bottom wall, its right wall
      and the corner below-right of it, where each of them lies inside the
      render grid. */
  method DrawCell(render: seq<seq<char>>, g: seq<seq<BoardCell>>, n: nat, y: nat, x: nat)
    returns (render': seq<seq<char>>)
    requires n >= 1 && IsSquare(g, n) && IsSquare(render, RenderSize(n)) && y < n && x < n
    requires !g[n - 1][n - 1].wallRight
    requires forall ry: nat, rx: nat :: ry / 2 == y && rx / 2 == x && ry < RenderSize(n) && rx < RenderSize(n)
               ==> render[ry][rx] == BLANK
    ensures IsSquare(render', RenderSize(n))
    ensures forall ry: nat, rx: nat :: ry < RenderSize(n) && rx < RenderSize(n) ==>
              render'[ry][rx] == if ry / 2 == y && rx / 2 == x then Glyph(g, n, ry, rx) else render[ry][rx]
  {
    var m := RenderSize(n);
    var c := g[y][x];
    var ry, rx := 2 * y, 2 * x;
    render' := render;
    if y < n - 1 {
      if x < n - 1 {
        if c.wallBottom {
          render' := SetAt(render', m, Position(rx, ry + 1), WALL);
        }
        if c.wallRight {
          render' := SetAt(render', m, Position(rx + 1, ry), WALL);
        }
        render' := SetAt(render', m, Position(rx + 1, ry + 1), WALL);
      } else {
        if c.wallBottom {
          render' := SetAt(render', m, Position(rx, ry + 1), WALL);
        }
      }
    } else {
      if c.wallRight {
        render' := SetAt(render', m, Position(rx + 1, ry), WALL);
      }
    }
  }

  /** Expands an `n × n` grid of cells into the `(2n - 1)`-square character
      grid the game is played on. Cells and the gaps between two open
      neighbours are blank, walls and interior corners are `WALL`. The last
      cell must have no right wall: drawing it would fall off the grid. */
  method ConvertGeneratedMaze(g: seq<seq<BoardCell>>) returns (render: seq<seq<char>>)
    requires |g| >= 1 && IsSquare(g, |g|)
    requires !g[|g| - 1][|g| - 1].wallRight
    ensures IsSquare(render, RenderSize(|g|))
    ensures Drawn(render, g, |g|)
  {
    var n := |g|;
    var m := RenderSize(n);
    render := seq(m, _ => seq(m, _ => BLANK));
    for y := 0 to n
      invariant IsSquare(render, m)
      invariant forall ry: nat, rx: nat :: ry < m && rx < m ==>
                  render[ry][rx] == if ry / 2 < y then Glyph(g, n, ry, rx) else BLANK
    {
      for x := 0 to n
        invariant IsSquare(render, m)
        invariant forall ry: nat, rx: nat :: ry < m && rx < m ==>
                    render[ry][rx] == if ry / 2 < y || (ry / 2 == y && rx / 2 < x) then Glyph(g, n, ry, rx) else BLANK
      {
        render := DrawCell(render, g, n, y, x);
      }
    }
    GlyphsDraw(render, g, n);
  }

  /** `path` walks from render cell to adjacent render cell of `board` and
      never steps on a wall. */
  ghost predicate OpenWalk(board: seq<seq<char>>, m: nat, path: seq<Position>)
    requires IsSquare(board, m)
  {
    && |path| > 0
    && (forall i :: 0 <= i < |path| ==> InBounds(path[i], m) && board[path[i].y][path[i].x] != WALL)
    && (forall i :: 0 <= i < |path| - 1 ==> Adjacent(path[i], path[i + 1]))
  }

  /** A player standing on `a` can walk to `b` without crossing a wall. */
  ghost predicate CanReach(board: seq<seq<char>>, m: nat, a: Position, b: Position)
    requires IsSquare(board, m)
  {
    exists path :: OpenWalk(board, m, path) && path[0] == a && path[|path| - 1] == b
  }

  /** Between two adjacent cells with no wall between them, the player
      can step from the first cell onto the gap and from the gap onto the
      second cell. */
  lemma StepThroughGap(render: seq<seq<char>>, g: seq<seq<BoardCell>>, n: nat, a: Position, b: Position)
    requires n >= 1 && IsSquare(g, n) && IsSquare(render, RenderSize(n)) && Drawn(render, g, n)
    requires InBounds(a, n) && InBounds(b, n) && Adjacent(a, b) && !WallBetween(g, n, a, b)
    ensures InBounds(Between(a, b), RenderSize(n)) && InBounds(Spot(b), RenderSize(n))
    ensures render[Between(a, b).y][Between(a, b).x] != WALL && render[Spot(b).y][Spot(b).x] != WALL
    ensures Adjacent(Spot(a), Between(a, b)) && Adjacent(Between(a, b), Spot(b))
  {
  }

  /** A walk that reaches `a` goes on by two more open steps to `q`. */
  lemma ReachOn(board: seq<seq<char>>, m: nat, s: Position, a: Position, p: Position, q: Position)
    requires IsSquare(board, m) && CanReach(board, m, s, a)
    requires InBounds(p, m) && board[p.y][p.x] != WALL && InBounds(q, m) && board[q.y][q.x] != WALL
    requires Adjacent(a, p) && Adjacent(p, q)
    ensures CanReach(board, m, s, q)
  {
    var walk :| OpenWalk(board, m, walk) && walk[0] == s && walk[|walk| - 1] == a;
    var longer := walk + [p, q];
    forall i | 0 <= i < |longer|
      ensures InBounds(longer[i], m) && board[longer[i].y][longer[i].x] != WALL
    {
      if i < |walk| {
        assert longer[i] == walk[i];
      }
    }
    forall i | 0 <= i < |longer| - 1
      ensures Adjacent(longer[i], longer[i + 1])
    {
      if i < |walk| - 1 {
        assert longer[i] == walk[i] && longer[i + 1] == walk[i + 1];
      }
    }
    assert OpenWalk(board, m, longer) && longer[0] == s && longer[|longer| - 1] == q;
  }

  /** A player stands still on the render cell of any maze cell. */
  lemma LiftStart(render: seq<seq<char>>, g: seq<seq<BoardCell>>, n: nat, c: Position)
    requires n >= 1 && IsSquare(g, n) && IsSquare(render, RenderSize(n)) && Drawn(render, g, n)
    requires InBounds(c, n)
    ensures CanReach(render, RenderSize(n), Spot(c), Spot(c))
  {
    assert OpenWalk(render, RenderSize(n), [Spot(c)]);
  }

  /** A walk that reaches the render cell of `a` goes on through the gap to
      the render cell of a neighbour `b` that no wall separates from `a`. */
  lemma LiftStep(render: seq<seq<char>>, g: seq<seq<BoardCell>>, n: nat, s: Position, a: Position, b: Position)
    requires n >= 1 && IsSquare(g, n) && IsSquare(render, RenderSize(n)) && Drawn(render, g, n)
    requires InBounds(a, n) && InBounds(b, n) && Adjacent(a, b) && !WallBetween(g, n, a, b)
    requires CanReach(render, RenderSize(n), s, Spot(a))
    ensures CanReach(render, RenderSize(n), s, Spot(b))
  {
    StepThroughGap(render, g, n, a, b);
    ReachOn(render, RenderSize(n), s, Spot(a), Between(a, b), Spot(b));
  }

  /** An open path through the cells becomes a walk through the render
      grid: from each cell through the blank gap to the next cell. */
  lemma {:induction false} LiftPath(render: seq<seq<char>>, g: seq<seq<BoardCell>>, n: nat, path: seq<Position>)
    requires n >= 1 && IsSquare(g, n) && IsSquare(render, RenderSize(n)) && Drawn(render, g, n)
    requires OpenPath(g, n, path)
    ensures CanReach(render, RenderSize(n), Spot(path[0]), Spot(path[|path| - 1]))
    decreases |path|
  {
    if |path| == 1 {
      LiftStart(render, g, n, path[0]);
    } else {
      PathPrefix(g, n, path);
      LiftPath(render, g, n, path[..|path| - 1]);
      LiftStep(render, g, n, Spot(path[0]), path[|path| - 2], path[|path| - 1]);
    }
  }

  /** The render grid of a maze in which every cell is reachable from the
      start lets a player walk from the top-left corner to the bottom-right
      one. */
  lemma DrawnMazeWinnable(render: seq<seq<char>>, g: seq<seq<BoardCell>>, n: nat, start: Position)
    requires n >= 1 && IsSquare(g, n) && IsSquare(render, RenderSize(n)) && Drawn(render, g, n)
    requires forall c :: InBounds(c, n) ==> Reachable(g, n, start, c)
    ensures CanReach(render, RenderSize(n), Position(0, 0), Position(RenderSize(n) - 1, RenderSize(n) - 1))
  {
    var first, last := Position(0, 0), Position(n - 1, n - 1);
    ReachableBack(g, n, start, first);
    ReachableJoin(g, n, first, start, last);
    var path :| OpenPath(g, n, path) && path[0] == first && path[|path| - 1] == last;
    LiftPath(render, g, n, path);
    assert Spot(first) == Position(0, 0);
    assert Spot(last) == Position(RenderSize(n) - 1, RenderSize(n) - 1);
  }

  /** A player who can walk from `p` can walk from any open render cell
      next to `p`. */
  lemma ReachFromNeighbour(board: seq<seq<char>>, m: nat, p: Position, t: Position, goal: Position)
    requires IsSquare(board, m) && CanReach(board, m, p, goal)
    requires InBounds(t, m) && board[t.y][t.x] != WALL && (t == p || Adjacent(t, p))
    ensures CanReach(board, m, t, goal)
  {
    if t != p {
      var walk :| OpenWalk(board, m, walk) && walk[0] == p && walk[|walk| - 1] == goal;
      var longer := [t] + walk;
      assert forall i :: 0 < i < |longer| ==> longer[i] == walk[i - 1];
      assert OpenWalk(board, m, longer);
    }
  }

  /** The cell a move asks for: one step in the direction of `action`,
      unless that step would leave the `m`-square grid, in which case the
      player stays where they are. */
  function Target(p: Position, action: Movement, m: nat): (q: Position)
    ensures InBounds(p, m) ==> InBounds(q, m)
    ensures InBounds(p, m) ==>
      var (dx, dy) := Offset(action);
      if 0 <= p.x + dx < m && 0 <= p.y + dy < m then q.x == p.x + dx && q.y == p.y + dy
      else q == p
  {
    match action
    case Up => if p.y > 0 then Position(p.x, p.y - 1) else p
    case Down => if p.y < m - 1 then Position(p.x, p.y + 1) else p
    case Left => if p.x > 0 then Position(p.x - 1, p.y) else p
    case Right => if p.x < m - 1 then Position(p.x + 1, p.y) else p
  }

  /** The unit step of a movement, as a column and a row offset. */
  function Offset(action: Movement): (int, int) {
    match action
    case Up => (0, -1)
    case Down => (0, 1)
    case Left => (-1, 0)
    case Right => (1, 0)
  }

  /** A move's target is the player's own cell or a neighbour of it. */
  lemma TargetIsNear(p: Position, action: Movement, m: nat)
    ensures Target(p, action, m) == p || Adjacent(p, Target(p, action, m))
  {
  }

  /** Carves a maze for the requested size and draws it: `render` draws
      the carved cells `cells`, in which every cell is reachable from the
      centre, so the render grid has a blank top-left and bottom-right
      corner, walls and blanks elsewhere, and an open walk from one corner
      to the other. */
  method DrawNewMaze(boardSize: nat) returns (render: seq<seq<char>>, ghost cells: seq<seq<BoardCell>>)
    ensures |render| == RenderSize(GenSize(boardSize)) && IsSquare(render, |render|)
    ensures IsSquare(cells, GenSize(boardSize)) && NoOuterWalls(cells, GenSize(boardSize))
    ensures forall c :: InBounds(c, GenSize(boardSize)) ==>
              Reachable(cells, GenSize(boardSize), Start(GenSize(boardSize)), c)
    ensures Drawn(render, cells, GenSize(boardSize))
    ensures forall ry: nat, rx: nat :: ry < |render| && rx < |render| ==>
              render[ry][rx] == WALL || render[ry][rx] == BLANK
    ensures render[0][0] == BLANK && render[|render| - 1][|render| - 1] == BLANK
    ensures CanReach(render, |render|, Position(0, 0), Position(|render| - 1, |render| - 1))
  {
    var generated := GenerateMaze(boardSize);
    cells := generated;
    render := ConvertGeneratedMaze(generated);
    DrawnMazeWinnable(render, generated, |generated|, Start(|generated|));
    DrawnCorners(render, generated, |generated|);
  }

  /** A drawn grid holds only walls and blanks, and its corners are the
      blank render cells of the corner cells. */
  lemma DrawnCorners(render: seq<seq<char>>, g: seq<seq<BoardCell>>, n: nat)
    requires n >= 1 && IsSquare(g, n) && IsSquare(render, RenderSize(n)) && Drawn(render, g, n)
    ensures forall ry: nat, rx: nat :: ry < |render| && rx < |render| ==>
              render[ry][rx] == WALL || render[ry][rx] == BLANK
    ensures render[0][0] == BLANK && render[|render| - 1][|render| - 1] == BLANK
  {
    var first, last := Position(0, 0), Position(n - 1, n - 1);
    assert InBounds(first, n) && Spot(first) == Position(0, 0);
    assert InBounds(last, n) && Spot(last) == Position(|render| - 1, |render| - 1);
    assert render[Spot(first).y][Spot(first).x] == BLANK;
    assert render[Spot(last).y][Spot(last).x] == BLANK;
  }

  /** A consistent game: the board is square and keeps the walls of
      `maze`; the goal is the bottom-right corner; the player stands on an
      open cell, is the only `SYMBOL` on the board, has won only on the goal,
      and can still walk to the goal. */
  ghost predicate Playable(board: seq<seq<char>>, maze: seq<seq<char>>, position: Position,
                           winPosition: Position, victory: bool)
  {
    && |board| >= 1 && IsSquare(board, |board|) && IsSquare(maze, |board|)
    && winPosition == Position(|board| - 1, |board| - 1)
    && InBounds(position, |board|)
    && (forall y: nat, x: nat :: y < |board| && x < |board| ==> (board[y][x] == WALL <==> maze[y][x] == WALL))
    && board[position.y][position.x] != WALL
    && (forall y: nat, x: nat :: y < |board| && x < |board| && Position(x, y) != position ==> board[y][x] != SYMBOL)
    && (victory ==> position == winPosition)
    && CanReach(maze, |board|, position, winPosition)
  }

  /** Stamping the player on the top-left corner and the goal on the
      bottom-right corner of a drawn maze from which the goal can be reached
      starts a consistent game. */
  lemma StartPlayable(render: seq<seq<char>>, m: nat)
    requires m >= 1 && IsSquare(render, m)
    requires forall ry: nat, rx: nat :: ry < m && rx < m ==> render[ry][rx] == WALL || render[ry][rx] == BLANK
    requires render[0][0] == BLANK && render[m - 1][m - 1] == BLANK
    requires CanReach(render, m, Position(0, 0), Position(m - 1, m - 1))
    ensures Playable(SetAt(SetAt(render, m, Position(0, 0), SYMBOL), m, Position(m - 1, m - 1), GOAL),
                     render, Position(0, 0), Position(m - 1, m - 1), false)
  {
    var once := SetAt(render, m, Position(0, 0), SYMBOL);
    var board := SetAt(once, m, Position(m - 1, m - 1), GOAL);
    forall y: nat, x: nat | y < m && x < m
      ensures (board[y][x] == WALL <==> render[y][x] == WALL)
      ensures Position(x, y) != Position(0, 0) ==> board[y][x] != SYMBOL
    {
      if Position(x, y) != Position(m - 1, m - 1) {
        assert board[y][x] == once[y][x];
      }
    }
  }

  /** Accepting a move onto an open cell next to the player keeps the game
      consistent, and wins exactly when the cell is the goal. */
  lemma MovePlayable(board: seq<seq<char>>, maze: seq<seq<char>>, position: Position,
                     winPosition: Position, t: Position)
    requires Playable(board, maze, position, winPosition, false)
    requires InBounds(t, |board|) && maze[t.y][t.x] != WALL && (t == position || Adjacent(position, t))
    ensures Playable(SetAt(SetAt(board, |board|, position, BLANK), |board|, t, SYMBOL),
                     maze, t, winPosition, t == winPosition)
  {
    var m := |board|;
    var once := SetAt(board, m, position, BLANK);
    var board' := SetAt(once, m, t, SYMBOL);
    ReachFromNeighbour(maze, m, position, t, winPosition);
    forall y: nat, x: nat | y < m && x < m
      ensures (board'[y][x] == WALL <==> maze[y][x] == WALL)
      ensures Position(x, y) != t ==> board'[y][x] != SYMBOL
    {
      if Position(x, y) != t {
        assert board'[y][x] == once[y][x];
      }
    }
  }

  /** The player's state: the board as displayed, where the player is, the
      goal, and whether the goal has been reached. */
  class GameState {
    var board: seq<seq<char>>
    var position: Position
    var winPosition: Position
    var victory: bool
    /** The board as drawn from the carved maze, before the player and the
        goal are stamped on it. */
    ghost const maze: seq<seq<char>>
    /** The carved cells that `maze` draws. */
    ghost const cells: seq<seq<BoardCell>>

    /** The fields form a consistent game. */
    ghost predicate Valid()
      reads this
    {
      Playable(board, maze, position, winPosition, victory)
    }

    /** Starts a game on a freshly carved maze for the requested size: the
        player at the top-left corner, the goal at the bottom-right one. */
    constructor (boardSize: nat)
      ensures Valid()
      ensures |board| == RenderSize(GenSize(boardSize))
      ensures position == Position(0, 0) && !victory
      ensures board[winPosition.y][winPosition.x] == GOAL
      ensures winPosition != position ==> board[position.y][position.x] == SYMBOL
      ensures forall y: nat, x: nat ::
                y < |board| && x < |board| && Position(x, y) != position && Position(x, y) != winPosition
                ==> board[y][x] == maze[y][x]
      ensures IsSquare(cells, GenSize(boardSize)) && NoOuterWalls(cells, GenSize(boardSize))
      ensures forall c :: InBounds(c, GenSize(boardSize)) ==>
                Reachable(cells, GenSize(boardSize), Start(GenSize(boardSize)), c)
      ensures Drawn(maze, cells, GenSize(boardSize))
    {
      var render, carved := DrawNewMaze(boardSize);
      var m := |render|;
      maze := render;
      cells := carved;
      board := render;
      position := Position(0, 0);
      winPosition := Position(m - 1, m - 1);
      victory := false;
      new;
      StartPlayable(render, m);
      board := SetAt(board, m, position, SYMBOL);
      board := SetAt(board, m, winPosition, GOAL);
    }

    /** Whether the player may step onto `p`: only while the game is not
        won, and only onto a cell that is not a wall of the maze. */
    function IsValidMove(p: Position): (ok: bool)
      requires Valid() && InBounds(p, |board|)
      reads this
      ensures ok <==> !victory && maze[p.y][p.x] != WALL
    {
      !victory && board[p.y][p.x] != WALL
    }

    /** Whether the player stands on the goal, the bottom-right corner. */
    function IsWinPosition(): (won: bool)
      requires Valid()
      reads this
      ensures won <==> position.x == |board| - 1 && position.y == |board| - 1
    {
      position == winPosition
    }

    /** The accepted half of a move: blanks the player's cell, stamps
        `SYMBOL` on `newPos`, moves the player there and wins on the goal. */
    method Advance(newPos: Position)
      requires Valid() && InBounds(newPos, |board|) && (newPos == position || Adjacent(position, newPos))
      requires !victory && maze[newPos.y][newPos.x] != WALL
      modifies this
      ensures Valid()
      ensures winPosition == old(winPosition) && position == newPos
      ensures board == SetAt(SetAt(old(board), |old(board)|, old(position), BLANK), |old(board)|, newPos, SYMBOL)
      ensures victory == (newPos == winPosition)
    {
      var m := |board|;
      MovePlayable(board, maze, position, winPosition, newPos);
      board := SetAt(board, m, position, BLANK);
      board := SetAt(board, m, newPos, SYMBOL);
      position := newPos;
      if IsWinPosition() {
        victory := true;
      }
    }

    /** Moves the player one step in the direction of `action`, if the game
        is not won and the target is not a wall: the old cell is blanked,
        `SYMBOL` is stamped on the new one, and reaching the goal wins.
        Otherwise nothing changes. */
    method MovePosition(action: Movement)
      requires Valid()
      modifies this
      ensures Valid()
      ensures winPosition == old(winPosition)
      ensures var t := Target(old(position), action, |old(board)|);
        if !old(victory) && maze[t.y][t.x] != WALL then
          && position == t
          && board == SetAt(SetAt(old(board), |old(board)|, old(position), BLANK), |old(board)|, t, SYMBOL)
          && victory == (t == winPosition)
        else
          position == old(position) && board == old(board) && victory == old(victory)
    {
      var newPos := Target(position, action, |board|);
      TargetIsNear(position, action, |board|);
      if IsValidMove(newPos) {
        Advance(newPos);
      }
    }
  }
}
