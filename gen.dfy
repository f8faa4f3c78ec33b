/** Maze generation: a randomized depth-first carve over a square grid of
    cells, with an explicit backtracking stack, a visited set and a flag that
    remembers whether the previous step was a backtrack (a pop). */
module Gen {
  import opened MazeTypes
  import opened Reachability

  /** The side of the generation grid for a requested board size. */
  function GenSize(boardSize: nat): (n: nat)
    ensures n >= 1 && (boardSize >= 2 ==> n <= boardSize)
  {
    boardSize / 2 + 1
  }

  /** The cell the carve starts from: the centre of the grid. */
  function Start(n: nat): (s: Position)
    requires n >= 1
    ensures InBounds(s, n) && s.x == s.y && s.x + s.x <= n && n <= s.x + s.x + 1
  {
    Position(n / 2, n / 2)
  }

  /** Whether one carving step at `pos` walls the edge between the adjacent
      cells `a` and `b`: never in a step that follows a pop, and otherwise
      exactly when one of them is `pos` and the other is visited and is not
      `top`, the cell on top of the stack. */
  ghost predicate Walls(pos: Position, visited: set<Position>, popped: bool, top: Position,
                        a: Position, b: Position)
  {
    && !popped
    && ((a == pos && b in visited && b != top) || (b == pos && a in visited && a != top))
  }

  /** The grid after one whole carving step at `pos`: `before` with a wall
      added exactly on each edge between `pos` and a visited neighbour other
      than `top`, and none at all when the previous step was a pop. */
  ghost function Marked(before: seq<seq<BoardCell>>, n: nat, pos: Position,
                        visited: set<Position>, popped: bool, top: Position): (after: seq<seq<BoardCell>>)
    requires IsSquare(before, n)
    ensures IsSquare(after, n)
  {
    seq(n, y requires 0 <= y < n =>
      seq(n, x requires 0 <= x < n =>
        BoardCell(
          before[y][x].wallRight
            || (x + 1 < n && Walls(pos, visited, popped, top, Position(x, y), Position(x + 1, y))),
          before[y][x].wallBottom
            || (y + 1 < n && Walls(pos, visited, popped, top, Position(x, y), Position(x, y + 1))))))
  }

  /** The rank of `q` in the scan order of the neighbours of `pos`: up 0,
      left 1, down 2, right 3; any cell that is not a neighbour ranks 4. */
  function ScanRank(pos: Position, q: Position): (r: nat)
    ensures r < 4 <==> Adjacent(pos, q)
  {
    if q.x == pos.x && q.y + 1 == pos.y then 0
    else if q.y == pos.y && q.x + 1 == pos.x then 1
    else if q.x == pos.x && q.y == pos.y + 1 then 2
    else if q.y == pos.y && q.x == pos.x + 1 then 3
    else 4
  }

  /** `Marked` restricted to the edges between `pos` and the neighbours of
      rank below `k`: the walls added once those have been scanned. */
  ghost function MarkedUpTo(before: seq<seq<BoardCell>>, n: nat, pos: Position,
                            visited: set<Position>, popped: bool, top: Position, k: nat): (after: seq<seq<BoardCell>>)
    requires IsSquare(before, n)
    ensures IsSquare(after, n)
  {
    seq(n, y requires 0 <= y < n =>
      seq(n, x requires 0 <= x < n =>
        BoardCell(
          before[y][x].wallRight
            || (x + 1 < n && Walls(pos, visited, popped, top, Position(x, y), Position(x + 1, y))
                && (ScanRank(pos, Position(x, y)) < k || ScanRank(pos, Position(x + 1, y)) < k)),
          before[y][x].wallBottom
            || (y + 1 < n && Walls(pos, visited, popped, top, Position(x, y), Position(x, y + 1))
                && (ScanRank(pos, Position(x, y)) < k || ScanRank(pos, Position(x, y + 1)) < k)))))
  }

  /** Before any neighbour is scanned nothing is marked. */
  lemma ScanStarts(before: seq<seq<BoardCell>>, n: nat, pos: Position,
                   visited: set<Position>, popped: bool, top: Position)
    requires IsSquare(before, n)
    ensures MarkedUpTo(before, n, pos, visited, popped, top, 0) == before
  {
    var a := MarkedUpTo(before, n, pos, visited, popped, top, 0);
    assert forall y :: 0 <= y < n ==> a[y] == before[y];
  }

  /** Once all four ranks are scanned, the walls added are those of the
      whole step. */
  lemma ScanCovers(before: seq<seq<BoardCell>>, n: nat, pos: Position,
                   visited: set<Position>, popped: bool, top: Position)
    requires IsSquare(before, n)
    ensures MarkedUpTo(before, n, pos, visited, popped, top, 4)
         == Marked(before, n, pos, visited, popped, top)
  {
    var a := MarkedUpTo(before, n, pos, visited, popped, top, 4);
    var b := Marked(before, n, pos, visited, popped, top);
    forall y, x | 0 <= y < n && 0 <= x < n
      ensures a[y][x] == b[y][x]
    {
      assert Adjacent(Position(x, y), Position(x + 1, y));
      assert Adjacent(Position(x, y), Position(x, y + 1));
    }
    assert forall y :: 0 <= y < n ==> a[y] == b[y];
  }

  /** Scanning rank `k` adds nothing when that neighbour gets no wall or
      lies outside the grid. */
  lemma ScanSkips(before: seq<seq<BoardCell>>, n: nat, pos: Position,
                  visited: set<Position>, popped: bool, top: Position, k: nat)
    requires IsSquare(before, n) && InBounds(pos, n)
    requires forall q :: InBounds(q, n) && ScanRank(pos, q) == k ==> !Walls(pos, visited, popped, top, pos, q)
    ensures MarkedUpTo(before, n, pos, visited, popped, top, k + 1)
         == MarkedUpTo(before, n, pos, visited, popped, top, k)
  {
    var a := MarkedUpTo(before, n, pos, visited, popped, top, k + 1);
    var b := MarkedUpTo(before, n, pos, visited, popped, top, k);
    forall y, x | 0 <= y < n && 0 <= x < n
      ensures a[y][x] == b[y][x]
    {
      var here, east, south := Position(x, y), Position(x + 1, y), Position(x, y + 1);
      assert ScanRank(pos, here) == k ==> !Walls(pos, visited, popped, top, pos, here);
      assert x + 1 < n && ScanRank(pos, east) == k ==> !Walls(pos, visited, popped, top, pos, east);
      assert y + 1 < n && ScanRank(pos, south) == k ==> !Walls(pos, visited, popped, top, pos, south);
    }
    assert forall y :: 0 <= y < n ==> a[y] == b[y];
  }

  /** Scanning the neighbour `mv` adds nothing when it gets no wall. */
  lemma ScanSkipsAt(before: seq<seq<BoardCell>>, n: nat, pos: Position,
                    visited: set<Position>, popped: bool, top: Position, mv: Position)
    requires IsSquare(before, n) && InBounds(pos, n) && Adjacent(pos, mv)
    requires !Walls(pos, visited, popped, top, pos, mv)
    ensures MarkedUpTo(before, n, pos, visited, popped, top, ScanRank(pos, mv) + 1)
         == MarkedUpTo(before, n, pos, visited, popped, top, ScanRank(pos, mv))
  {
    forall q | InBounds(q, n) && ScanRank(pos, q) == ScanRank(pos, mv)
      ensures !Walls(pos, visited, popped, top, pos, q)
    {
      RankedEdge(pos, mv, pos, q);
    }
    ScanSkips(before, n, pos, visited, popped, top, ScanRank(pos, mv));
  }

  /** The two cells `pos` and `mv` are adjacent and `low` is the one of the
      two with smaller coordinates; `right` tells whether they lie side by side. */
  ghost predicate EdgeOwner(pos: Position, mv: Position, low: Position, right: bool) {
    && (low == pos || low == mv)
    && (right ==> pos.y == mv.y && low.y == pos.y && low.x + 1 == pos.x + mv.x - low.x)
    && (!right ==> pos.x == mv.x && low.x == pos.x && low.y + 1 == pos.y + mv.y - low.y)
  }

  /** Scanning `mv` sets the flag of `low` that stands for the edge to `pos`. */
  lemma ScanWallsOwner(before: seq<seq<BoardCell>>, n: nat, pos: Position,
                       visited: set<Position>, popped: bool, top: Position,
                       mv: Position, low: Position, right: bool)
    requires IsSquare(before, n) && InBounds(pos, n) && InBounds(mv, n) && EdgeOwner(pos, mv, low, right)
    requires Walls(pos, visited, popped, top, pos, mv)
    ensures var k := ScanRank(pos, mv);
            var after := MarkedUpTo(before, n, pos, visited, popped, top, k);
            var a := MarkedUpTo(before, n, pos, visited, popped, top, k + 1);
            a[low.y][low.x] == if right then after[low.y][low.x].(wallRight := true)
                               else after[low.y][low.x].(wallBottom := true)
  {
    var east, south := Position(low.x + 1, low.y), Position(low.x, low.y + 1);
    if right {
      assert east == (if low == pos then mv else pos);
      assert south != pos && south != mv;
    } else {
      assert south == (if low == pos then mv else pos);
      assert east != pos && east != mv;
    }
  }

  /** Scanning `mv` changes no cell other than `low`. */
  lemma ScanWallsElsewhere(before: seq<seq<BoardCell>>, n: nat, pos: Position,
                           visited: set<Position>, popped: bool, top: Position,
                           mv: Position, low: Position, right: bool, y: nat, x: nat)
    requires IsSquare(before, n) && InBounds(pos, n) && InBounds(mv, n) && EdgeOwner(pos, mv, low, right)
    requires y < n && x < n && Position(x, y) != low
    ensures var k := ScanRank(pos, mv);
            var after := MarkedUpTo(before, n, pos, visited, popped, top, k);
            var a := MarkedUpTo(before, n, pos, visited, popped, top, k + 1);
            a[y][x] == after[y][x]
  {
    var here, east, south := Position(x, y), Position(x + 1, y), Position(x, y + 1);
    RankedEdge(pos, mv, here, east);
    RankedEdge(pos, mv, here, south);
  }

  /** An edge at `pos` whose other end has the rank of the neighbour `mv`
      is the edge between `pos` and `mv`. */
  lemma RankedEdge(pos: Position, mv: Position, a: Position, b: Position)
    requires Adjacent(pos, mv)
    ensures (a == pos || b == pos) && (ScanRank(pos, a) == ScanRank(pos, mv) || ScanRank(pos, b) == ScanRank(pos, mv))
            ==> (a == pos && b == mv) || (a == mv && b == pos)
  {
  }

  /** Scanning a neighbour that gets a wall sets the flag of the edge between
      it and `pos`, kept on `low`, the one of the two with smaller coordinates. */
  lemma ScanWalls(before: seq<seq<BoardCell>>, n: nat, pos: Position,
                  visited: set<Position>, popped: bool, top: Position,
                  mv: Position, low: Position, right: bool)
    requires IsSquare(before, n) && InBounds(pos, n) && InBounds(mv, n) && EdgeOwner(pos, mv, low, right)
    requires Walls(pos, visited, popped, top, pos, mv)
    ensures var k := ScanRank(pos, mv);
      var after: seq<seq<BoardCell>> := MarkedUpTo(before, n, pos, visited, popped, top, k);
      MarkedUpTo(before, n, pos, visited, popped, top, k + 1)
        == SetAt(after, n, low, if right then after[low.y][low.x].(wallRight := true)
                                else after[low.y][low.x].(wallBottom := true))
  {
    var k := ScanRank(pos, mv);
    var after: seq<seq<BoardCell>> := MarkedUpTo(before, n, pos, visited, popped, top, k);
    var a := MarkedUpTo(before, n, pos, visited, popped, top, k + 1);
    var b: seq<seq<BoardCell>> := SetAt(after, n, low, if right then after[low.y][low.x].(wallRight := true)
                                                       else after[low.y][low.x].(wallBottom := true));
    ScanWallsOwner(before, n, pos, visited, popped, top, mv, low, right);
    forall y, x | 0 <= y < n && 0 <= x < n
      ensures a[y][x] == b[y][x]
    {
      if Position(x, y) != low {
        ScanWallsElsewhere(before, n, pos, visited, popped, top, mv, low, right, y, x);
      }
    }
    assert forall y :: 0 <= y < n ==> a[y] == b[y];
  }

  /** One neighbour `mv` of `pos`, of scan rank `k`: an unvisited one is
      appended to the candidate moves; a visited one other than `top` gets a
      wall against `pos`, unless the previous step was a pop. The wall is the
      `wallRight` (when `right`) or `wallBottom` flag of `low`. */
  method ScanOne(marked: seq<seq<BoardCell>>, moves: seq<Position>, n: nat,
                 pos: Position, mv: Position, visited: set<Position>, popped: bool, top: Position,
                 low: Position, right: bool, ghost board: seq<seq<BoardCell>>, ghost k: nat)
    returns (marked': seq<seq<BoardCell>>, moves': seq<Position>)
    requires IsSquare(board, n) && InBounds(pos, n) && InBounds(mv, n)
    requires EdgeOwner(pos, mv, low, right) && ScanRank(pos, mv) == k
    requires marked == MarkedUpTo(board, n, pos, visited, popped, top, k)
    requires forall q :: q in moves <==> ScanRank(pos, q) < k && InBounds(q, n) && q !in visited
    ensures marked' == MarkedUpTo(board, n, pos, visited, popped, top, k + 1)
    ensures moves' == if mv in visited then moves else moves + [mv]
    ensures forall q :: q in moves' <==> ScanRank(pos, q) < k + 1 && InBounds(q, n) && q !in visited
  {
    moves', marked' := moves, marked;
    if mv !in visited {
      moves' := moves + [mv];
      ScanSkipsAt(board, n, pos, visited, popped, top, mv);
    } else if !popped && top != mv {
      ScanWalls(board, n, pos, visited, popped, top, mv, low, right);
      marked' := SetAt(marked, n, low, if right then marked[low.y][low.x].(wallRight := true)
                                       else marked[low.y][low.x].(wallBottom := true));
    } else {
      ScanSkipsAt(board, n, pos, visited, popped, top, mv);
    }
    forall q
      ensures q in moves' <==> ScanRank(pos, q) < k + 1 && InBounds(q, n) && q !in visited
    {
      RankedEdge(pos, mv, pos, q);
    }
  }

  /** Scans the neighbour of `pos` of rank `k` when it lies inside the grid:
      up (its bottom wall), left (its right wall), down (the bottom wall of
      `pos`) or right (the right wall of `pos`). */
  method ScanNeighbour(marked: seq<seq<BoardCell>>, moves: seq<Position>, n: nat,
                  pos: Position, visited: set<Position>, popped: bool, top: Position,
                  ghost board: seq<seq<BoardCell>>, k: nat)
    returns (marked': seq<seq<BoardCell>>, moves': seq<Position>)
    requires IsSquare(board, n) && InBounds(pos, n) && k < 4
    requires marked == MarkedUpTo(board, n, pos, visited, popped, top, k)
    requires forall q :: q in moves <==> ScanRank(pos, q) < k && InBounds(q, n) && q !in visited
    ensures marked' == MarkedUpTo(board, n, pos, visited, popped, top, k + 1)
    ensures forall q :: q in moves' <==> ScanRank(pos, q) < k + 1 && InBounds(q, n) && q !in visited
  {
    if k == 0 && pos.y > 0 {
      var mv := Position(pos.x, pos.y - 1);
      marked', moves' := ScanOne(marked, moves, n, pos, mv, visited, popped, top, mv, false, board, k);
    } else if k == 1 && pos.x > 0 {
      var mv := Position(pos.x - 1, pos.y);
      marked', moves' := ScanOne(marked, moves, n, pos, mv, visited, popped, top, mv, true, board, k);
    } else if k == 2 && pos.y + 1 < n {
      var mv := Position(pos.x, pos.y + 1);
      marked', moves' := ScanOne(marked, moves, n, pos, mv, visited, popped, top, pos, false, board, k);
    } else if k == 3 && pos.x + 1 < n {
      var mv := Position(pos.x + 1, pos.y);
      marked', moves' := ScanOne(marked, moves, n, pos, mv, visited, popped, top, pos, true, board, k);
    } else {
      marked', moves' := marked, moves;
      ScanSkips(board, n, pos, visited, popped, top, k);
    }
  }

  /** Looks at the neighbours of `pos` in the order up, left, down, right.
      An unvisited neighbour becomes a candidate move; a visited one that is
      not `top` gets a wall against `pos`, unless the previous step was a pop. */
  method ScanNeighbours(board: seq<seq<BoardCell>>, n: nat, pos: Position,
                        visited: set<Position>, popped: bool, top: Position)
    returns (marked: seq<seq<BoardCell>>, moves: seq<Position>)
    requires IsSquare(board, n) && InBounds(pos, n)
    ensures marked == Marked(board, n, pos, visited, popped, top)
    ensures forall q :: q in moves <==> InBounds(q, n) && Adjacent(pos, q) && q !in visited
  {
    ScanStarts(board, n, pos, visited, popped, top);
    marked, moves := ScanNeighbour(board, [], n, pos, visited, popped, top, board, 0);
    marked, moves := ScanNeighbour(marked, moves, n, pos, visited, popped, top, board, 1);
    marked, moves := ScanNeighbour(marked, moves, n, pos, visited, popped, top, board, 2);
    marked, moves := ScanNeighbour(marked, moves, n, pos, visited, popped, top, board, 3);
    ScanCovers(board, n, pos, visited, popped, top);
  }

  /** After a carving step, two adjacent cells are separated by a wall
      exactly when they were before or the step walls their edge. */
  lemma MarkedWallBetween(before: seq<seq<BoardCell>>, n: nat, pos: Position,
                          visited: set<Position>, popped: bool, top: Position,
                          a: Position, b: Position)
    requires IsSquare(before, n) && InBounds(a, n) && InBounds(b, n) && Adjacent(a, b)
    ensures WallBetween(Marked(before, n, pos, visited, popped, top), n, a, b)
        <==> WallBetween(before, n, a, b) || Walls(pos, visited, popped, top, a, b)
  {
  }

  /** A carving step only ever raises wall flags: a wall already present
      stays. */
  lemma MarkedOnlyAdds(before: seq<seq<BoardCell>>, n: nat, pos: Position,
                       visited: set<Position>, popped: bool, top: Position)
    requires IsSquare(before, n)
    ensures var after := Marked(before, n, pos, visited, popped, top);
      forall y: nat, x: nat :: y < n && x < n ==>
        (before[y][x].wallRight ==> after[y][x].wallRight)
        && (before[y][x].wallBottom ==> after[y][x].wallBottom)
  {
  }

  /** The pass right after a pop sets no wall at all. */
  lemma MarkedAfterPop(before: seq<seq<BoardCell>>, n: nat, pos: Position,
                       visited: set<Position>, top: Position)
    requires IsSquare(before, n)
    ensures Marked(before, n, pos, visited, true, top) == before
  {
    var after := Marked(before, n, pos, visited, true, top);
    forall y | 0 <= y < n
      ensures after[y] == before[y]
    {
      assert forall x :: 0 <= x < n ==> after[y][x] == before[y][x];
    }
  }

  /** A carving step never walls the outer right column or bottom row. */
  lemma MarkedKeepsBorder(before: seq<seq<BoardCell>>, n: nat, pos: Position,
                          visited: set<Position>, popped: bool, top: Position)
    requires IsSquare(before, n) && n >= 1
    requires NoOuterWalls(before, n)
    ensures NoOuterWalls(Marked(before, n, pos, visited, popped, top), n)
  {
    var after: seq<seq<BoardCell>> := Marked(before, n, pos, visited, popped, top);
    forall i | 0 <= i < n
      ensures !after[i][n - 1].wallRight && !after[n - 1][i].wallBottom
    {
      assert after[i][n - 1].wallRight == before[i][n - 1].wallRight;
      assert after[n - 1][i].wallBottom == before[n - 1][i].wallBottom;
    }
  }

  /** No cell of the last column has a right wall and no cell of the last
      row a bottom wall: walls are only ever set between two cells. */
  ghost predicate NoOuterWalls(g: seq<seq<BoardCell>>, n: nat)
    requires IsSquare(g, n) && n >= 1
  {
    forall i :: 0 <= i < n ==> !g[i][n - 1].wallRight && !g[n - 1][i].wallBottom
  }

  /** How one pass of the generation loop at `pos` moves on: `pos` becomes
      visited, and then either the carve steps to an unvisited neighbour,
      pushing `pos`, or it backtracks to the cell popped off the stack,
      which it does only when `pos` has no unvisited neighbour left. */
  ghost predicate Moved(n: nat, pos: Position, visited: set<Position>, stack: seq<Position>,
                        pos': Position, visited': set<Position>, stack': seq<Position>, popped': bool)
    requires |stack| > 0
  {
    && visited' == visited + {pos}
    && (!popped' ==> && stack' == stack + [pos]
                     && InBounds(pos', n) && Adjacent(pos, pos') && pos' !in visited')
    && (popped' ==> && stack' == stack[..|stack| - 1] && pos' == stack[|stack| - 1]
                    && Closed(pos, visited', n))
  }

  /** One pass of the generation loop at `pos`: mark `pos` visited, scan its
      neighbours, walling the edges to visited ones other than the top of the
      stack (unless the last pass was a pop), then either step to an
      unvisited neighbour, pushing `pos`, or backtrack to the cell popped off
      the stack. */
  method CarveStep(board: seq<seq<BoardCell>>, n: nat, pos: Position, visited: set<Position>,
                   stack: seq<Position>, popped: bool)
    returns (board': seq<seq<BoardCell>>, pos': Position, visited': set<Position>,
             stack': seq<Position>, popped': bool)
    requires IsSquare(board, n) && InBounds(pos, n) && |stack| > 0
    ensures board' == Marked(board, n, pos, visited', popped, stack[|stack| - 1])
    ensures Moved(n, pos, visited, stack, pos', visited', stack', popped')
  {
    visited' := visited + {pos};
    var moves;
    board', moves := ScanNeighbours(board, n, pos, visited', popped, stack[|stack| - 1]);
    if |moves| > 0 {
      stack' := stack + [pos];
      popped' := false;
      var i :| 0 <= i < |moves|;
      pos' := moves[i];
    } else {
      pos' := stack[|stack| - 1];
      stack' := stack[..|stack| - 1];
      popped' := true;
    }
  }

  /** The shape of the carve's stack: the cells on it are visited or current,
      the current cell is visited exactly when it was reached by a pop, the
      start cell sits twice at the bottom once the carve has left it, and a
      visited cell that is neither on the stack nor current has no unvisited
      neighbour. */
  ghost predicate StackShape(n: nat, pos: Position, visited: set<Position>,
                             stack: seq<Position>, popped: bool)
  {
    && InBounds(pos, n)
    && (forall v :: v in visited ==> InBounds(v, n))
    && (forall i :: 0 <= i < |stack| ==> stack[i] in visited + {pos})
    && (popped <==> pos in visited)
    && (|stack| == 1 ==> pos == stack[0])
    && (|stack| >= 2 ==> stack[1] == stack[0])
    && (stack == [] ==> pos in visited && Closed(pos, visited, n))
    && (forall v :: v in visited ==> v in stack || v == pos || Closed(v, visited, n))
  }

  /** A pass of the loop keeps the shape of the stack. */
  lemma StackStep(n: nat, pos: Position, visited: set<Position>, stack: seq<Position>, popped: bool,
                  pos': Position, visited': set<Position>, stack': seq<Position>, popped': bool)
    requires |stack| > 0
    requires StackShape(n, pos, visited, stack, popped)
    requires Moved(n, pos, visited, stack, pos', visited', stack', popped')
    ensures StackShape(n, pos', visited', stack', popped')
  {
    if popped' {
      forall v | v in visited'
        ensures v in stack' || v == pos' || Closed(v, visited', n)
      {
        if v in stack {
          var i :| 0 <= i < |stack| && stack[i] == v;
          if i < |stack| - 1 {
            assert stack'[i] == v;
          }
        }
      }
    }
  }

  /** Walls stand only inside the grid, between two visited cells. */
  ghost predicate WallShape(board: seq<seq<BoardCell>>, n: nat, visited: set<Position>)
  {
    && n >= 1 && IsSquare(board, n) && NoOuterWalls(board, n)
    && forall a, b :: InBounds(a, n) && InBounds(b, n) && Adjacent(a, b) && WallBetween(board, n, a, b)
         ==> a in visited && b in visited
  }

  /** A pass of the loop keeps walls between visited cells only. */
  lemma WallStep(board: seq<seq<BoardCell>>, n: nat, pos: Position, visited: set<Position>,
                 popped: bool, top: Position)
    requires IsSquare(board, n) && InBounds(pos, n)
    requires WallShape(board, n, visited)
    ensures WallShape(Marked(board, n, pos, visited + {pos}, popped, top), n, visited + {pos})
  {
    var board' := Marked(board, n, pos, visited + {pos}, popped, top);
    MarkedKeepsBorder(board, n, pos, visited + {pos}, popped, top);
    forall a, b | InBounds(a, n) && InBounds(b, n) && Adjacent(a, b) && WallBetween(board', n, a, b)
      ensures a in visited + {pos} && b in visited + {pos}
    {
      MarkedWallBetween(board, n, pos, visited + {pos}, popped, top, a, b);
    }
  }

  /** A spanning tree of the cells reached so far, rooted at `start`: every
      reached cell but the start has an adjacent, visited parent of smaller
      depth, and the current cell, if new, hangs off the top of the stack. */
  ghost predicate TreeShape(n: nat, start: Position, pos: Position, visited: set<Position>,
                            stack: seq<Position>, parent: map<Position, Position>,
                            depth: map<Position, nat>)
  {
    && start in visited + {pos}
    && depth.Keys == visited + {pos}
    && parent.Keys == visited + {pos} - {start}
    && (forall c :: c in parent ==>
          && parent[c] in visited && InBounds(parent[c], n) && InBounds(c, n)
          && Adjacent(parent[c], c) && depth[parent[c]] < depth[c])
    && (pos !in visited && pos in parent ==> |stack| > 0 && parent[pos] == stack[|stack| - 1])
  }

  /** No edge of the tree has a wall. */
  ghost predicate TreeOpen(board: seq<seq<BoardCell>>, n: nat, parent: map<Position, Position>)
    requires IsSquare(board, n)
  {
    forall c :: c in parent && InBounds(c, n) && InBounds(parent[c], n) && Adjacent(parent[c], c)
      ==> !WallBetween(board, n, parent[c], c)
  }

  /** A backtracking pass keeps the tree. */
  lemma TreeStepBack(n: nat, start: Position, pos: Position, visited: set<Position>,
                     stack: seq<Position>, popped: bool,
                     parent: map<Position, Position>, depth: map<Position, nat>,
                     pos': Position, visited': set<Position>, stack': seq<Position>)
    requires |stack| > 0
    requires StackShape(n, pos, visited, stack, popped)
    requires TreeShape(n, start, pos, visited, stack, parent, depth)
    requires Moved(n, pos, visited, stack, pos', visited', stack', true)
    ensures TreeShape(n, start, pos', visited', stack', parent, depth)
  {
    assert visited' + {pos'} == visited + {pos};
  }

  /** A forward pass grows the tree by the cell it steps to, hanging it off
      the cell it came from. */
  lemma TreeStepForward(n: nat, start: Position, pos: Position, visited: set<Position>,
                        stack: seq<Position>,
                        parent: map<Position, Position>, depth: map<Position, nat>,
                        pos': Position, visited': set<Position>, stack': seq<Position>)
    requires |stack| > 0
    requires InBounds(pos, n)
    requires TreeShape(n, start, pos, visited, stack, parent, depth)
    requires Moved(n, pos, visited, stack, pos', visited', stack', false)
    ensures TreeShape(n, start, pos', visited', stack', parent[pos' := pos], depth[pos' := depth[pos] + 1])
  {
    var parent', depth' := parent[pos' := pos], depth[pos' := depth[pos] + 1];
    assert pos' != start && pos' !in parent && pos in depth;
    assert depth'.Keys == visited' + {pos'};
    assert parent'.Keys == visited' + {pos'} - {start};
    forall c | c in parent'
      ensures && parent'[c] in visited' && InBounds(parent'[c], n) && InBounds(c, n)
              && Adjacent(parent'[c], c) && depth'[parent'[c]] < depth'[c]
    {
      if c != pos' {
        assert parent'[c] == parent[c] && parent[c] != pos';
      }
    }
    assert stack'[|stack'| - 1] == pos;
  }

  /** A pass walls no edge of the tree, and the edge it adds to the tree
      has no wall either, since the cell it steps to was never visited. */
  lemma TreeOpenStep(board: seq<seq<BoardCell>>, n: nat, start: Position, pos: Position,
                     visited: set<Position>, stack: seq<Position>, popped: bool,
                     parent: map<Position, Position>, depth: map<Position, nat>,
                     pos': Position, visited': set<Position>, stack': seq<Position>, popped': bool)
    requires IsSquare(board, n) && |stack| > 0
    requires StackShape(n, pos, visited, stack, popped) && WallShape(board, n, visited)
    requires TreeShape(n, start, pos, visited, stack, parent, depth) && TreeOpen(board, n, parent)
    requires Moved(n, pos, visited, stack, pos', visited', stack', popped')
    ensures var board' := Marked(board, n, pos, visited', popped, stack[|stack| - 1]);
            && TreeOpen(board', n, parent)
            && (!popped' ==> TreeOpen(board', n, parent[pos' := pos]))
  {
    var top := stack[|stack| - 1];
    var board' := Marked(board, n, pos, visited', popped, top);
    forall c | c in parent && InBounds(c, n) && InBounds(parent[c], n) && Adjacent(parent[c], c)
      ensures !WallBetween(board', n, parent[c], c)
    {
      MarkedWallBetween(board, n, pos, visited', popped, top, parent[c], c);
    }
    if !popped' {
      MarkedWallBetween(board, n, pos, visited', popped, top, pos, pos');
      var parent' := parent[pos' := pos];
      forall c | c in parent' && InBounds(c, n) && InBounds(parent'[c], n) && Adjacent(parent'[c], c)
        ensures !WallBetween(board', n, parent'[c], c)
      {
        if c != pos' {
          assert parent'[c] == parent[c];
        }
      }
    }
  }

  /** When the loop stops, every cell has been reached: either the stack ran
      out, and then every visited cell is closed, or `boardSize²` cells were
      visited, which is at least the whole grid. */
  lemma CarveReachesAll(boardSize: nat, pos: Position, visited: set<Position>,
                        stack: seq<Position>, popped: bool,
                        parent: map<Position, Position>, depth: map<Position, nat>)
    requires StackShape(GenSize(boardSize), pos, visited, stack, popped)
    requires Start(GenSize(boardSize)) in visited + {pos}
    requires stack == [] || |visited| >= boardSize * boardSize
    ensures forall c :: InBounds(c, GenSize(boardSize)) ==> c in visited + {pos}
  {
    var n, start := GenSize(boardSize), Start(GenSize(boardSize));
    if n == 1 {
      assert forall c :: InBounds(c, n) ==> c == start;
    } else if stack == [] {
      ClosedCoversGrid(visited, n, start);
    } else {
      SquaresOrdered(n, boardSize);
      FullGrid(visited, n);
    }
  }

  /** A tree over every cell of the grid, with no wall on its edges, is a
      certificate that every cell is reachable from its root. */
  lemma TreeSpans(board: seq<seq<BoardCell>>, n: nat, start: Position, pos: Position,
                  visited: set<Position>, stack: seq<Position>,
                  parent: map<Position, Position>, depth: map<Position, nat>)
    requires IsSquare(board, n) && InBounds(start, n)
    requires TreeShape(n, start, pos, visited, stack, parent, depth) && TreeOpen(board, n, parent)
    requires forall c :: InBounds(c, n) ==> c in visited + {pos}
    ensures forall c :: InBounds(c, n) ==> Reachable(board, n, start, c)
  {
    assert TreeCertificate(board, n, start, parent, depth);
    forall c | InBounds(c, n)
      ensures Reachable(board, n, start, c)
    {
      CertificateConnects(board, n, start, parent, depth, c);
    }
  }

  /** The state the generation loop keeps between passes: the shapes of
      the stack, of the walls and of the spanning tree, with at most
      `limit + 1` cells reached. */
  ghost predicate Carving(board: seq<seq<BoardCell>>, n: nat, limit: nat, pos: Position,
                          visited: set<Position>, stack: seq<Position>, popped: bool,
                          parent: map<Position, Position>, depth: map<Position, nat>)
  {
    && StackShape(n, pos, visited, stack, popped)
    && WallShape(board, n, visited)
    && TreeShape(n, Start(n), pos, visited, stack, parent, depth)
    && TreeOpen(board, n, parent)
    && |visited + {pos}| <= limit + 1
  }

  /** The tree after a pass: a forward pass hangs the new cell off `pos`. */
  ghost function Grown(parent: map<Position, Position>, depth: map<Position, nat>,
                       pos: Position, pos': Position, popped': bool)
    : (tree: (map<Position, Position>, map<Position, nat>))
    requires pos in depth
    ensures popped' ==> tree == (parent, depth)
    ensures !popped' ==> tree.0 == parent[pos' := pos] && tree.1 == depth[pos' := depth[pos] + 1]
  {
    if popped' then (parent, depth) else (parent[pos' := pos], depth[pos' := depth[pos] + 1])
  }

  /** A pass of the loop keeps its state and makes progress: either it
      reaches a new cell or it shortens the stack. */
  lemma CarvingStep(board: seq<seq<BoardCell>>, n: nat, limit: nat, pos: Position,
                    visited: set<Position>, stack: seq<Position>, popped: bool,
                    parent: map<Position, Position>, depth: map<Position, nat>,
                    board': seq<seq<BoardCell>>, pos': Position, visited': set<Position>,
                    stack': seq<Position>, popped': bool)
    requires Carving(board, n, limit, pos, visited, stack, popped, parent, depth)
    requires |stack| > 0 && |visited| < limit
    requires board' == Marked(board, n, pos, visited', popped, stack[|stack| - 1])
    requires Moved(n, pos, visited, stack, pos', visited', stack', popped')
    ensures pos in depth
    ensures var tree := Grown(parent, depth, pos, pos', popped');
            Carving(board', n, limit, pos', visited', stack', popped', tree.0, tree.1)
    ensures || |visited + {pos}| < |visited' + {pos'}|
            || (|visited + {pos}| == |visited' + {pos'}| && |stack'| < |stack|)
  {
    StackStep(n, pos, visited, stack, popped, pos', visited', stack', popped');
    WallStep(board, n, pos, visited, popped, stack[|stack| - 1]);
    TreeOpenStep(board, n, Start(n), pos, visited, stack, popped, parent, depth,
                 pos', visited', stack', popped');
    if popped' {
      TreeStepBack(n, Start(n), pos, visited, stack, popped, parent, depth, pos', visited', stack');
      assert visited' + {pos'} == visited + {pos};
    } else {
      TreeStepForward(n, Start(n), pos, visited, stack, parent, depth, pos', visited', stack');
      assert visited' + {pos'} == (visited + {pos}) + {pos'};
    }
  }

  /** The loop's state holds before the first pass: nothing visited, no
      wall, the start cell current and alone on the stack. */
  lemma CarvingStarts(n: nat, limit: nat)
    requires n >= 1
    ensures Carving(seq(n, _ => seq(n, _ => BoardCell(false, false))), n, limit,
                    Start(n), {}, [Start(n)], false, map[], map[Start(n) := 0])
  {
    var board := seq(n, _ => seq(n, _ => BoardCell(false, false)));
    forall a, b | InBounds(a, n) && InBounds(b, n) && Adjacent(a, b)
      ensures !WallBetween(board, n, a, b)
    {
      assert !board[a.y][a.x].wallRight && !board[a.y][a.x].wallBottom;
      assert !board[b.y][b.x].wallRight && !board[b.y][b.x].wallBottom;
    }
    assert NoOuterWalls(board, n);
    assert StackShape(n, Start(n), {}, [Start(n)], false);
    assert TreeShape(n, Start(n), Start(n), {}, [Start(n)], map[], map[Start(n) := 0]);
  }

  /** Once the loop stops, the walls face no outside edge and every cell is
      reachable from the start. */
  lemma CarvingDone(board: seq<seq<BoardCell>>, boardSize: nat, n: nat, limit: nat, pos: Position,
                    visited: set<Position>, stack: seq<Position>, popped: bool,
                    parent: map<Position, Position>, depth: map<Position, nat>)
    requires n == GenSize(boardSize) && limit == boardSize * boardSize
    requires Carving(board, n, limit, pos, visited, stack, popped, parent, depth)
    requires stack == [] || |visited| >= limit
    ensures IsSquare(board, n) && NoOuterWalls(board, n)
    ensures forall c :: InBounds(c, n) ==> Reachable(board, n, Start(n), c)
  {
    CarveReachesAll(boardSize, pos, visited, stack, popped, parent, depth);
    TreeSpans(board, n, Start(n), pos, visited, stack, parent, depth);
  }

  /** Carves a maze on a `(boardSize / 2 + 1)`-square grid of cells by a
      randomized depth-first walk from the centre. Every cell ends up
      reachable from the centre, and no wall faces the outside of the grid. */
  method GenerateMaze(boardSize: nat) returns (board: seq<seq<BoardCell>>)
    ensures IsSquare(board, GenSize(boardSize))
    ensures NoOuterWalls(board, GenSize(boardSize))
    ensures forall c :: InBounds(c, GenSize(boardSize)) ==>
              Reachable(board, GenSize(boardSize), Start(GenSize(boardSize)), c)
  {
    var n := boardSize / 2 + 1;
    var limit: nat := boardSize * boardSize;
    board := seq(n, _ => seq(n, _ => BoardCell(false, false)));
    var pos := Start(n);
    var visited: set<Position> := {};
    var stack := [pos];
    var popped := false;
    ghost var parent: map<Position, Position> := map[];
    ghost var depth: map<Position, nat> := map[pos := 0];
    CarvingStarts(n, limit);
    while |stack| > 0 && |visited| < limit
      invariant Carving(board, n, limit, pos, visited, stack, popped, parent, depth)
      decreases limit + 1 - |visited + {pos}|, |stack|
    {
      var board', pos', visited', stack', popped' := CarveStep(board, n, pos, visited, stack, popped);
      CarvingStep(board, n, limit, pos, visited, stack, popped, parent, depth,
                  board', pos', visited', stack', popped');
      parent, depth := Grown(parent, depth, pos, pos', popped').0, Grown(parent, depth, pos, pos', popped').1;
      board, pos, visited, stack, popped := board', pos', visited', stack', popped';
    }
    CarvingDone(board, boardSize, n, limit, pos, visited, stack, popped, parent, depth);
  }
}
