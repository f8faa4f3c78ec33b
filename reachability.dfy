/** Walls between generation cells, open paths through them, and a
    spanning-tree certificate from which every cell is reachable. */
module Reachability {
  import opened MazeTypes

  /** Whether `g` records a wall between the adjacent cells `a` and `b`.
      The flag is kept on whichever of the two has the smaller coordinate:
      `wallRight` for a horizontal pair, `wallBottom` for a vertical one. */
  ghost predicate WallBetween(g: seq<seq<BoardCell>>, n: nat, a: Position, b: Position)
    requires IsSquare(g, n) && InBounds(a, n) && InBounds(b, n) && Adjacent(a, b)
  {
    if a.x + 1 == b.x then g[a.y][a.x].wallRight
    else if b.x + 1 == a.x then g[b.y][b.x].wallRight
    else if a.y + 1 == b.y then g[a.y][a.x].wallBottom
    else g[b.y][b.x].wallBottom
  }

  /** `path` steps from cell to adjacent cell of `g` and never crosses a wall. */
  ghost predicate OpenPath(g: seq<seq<BoardCell>>, n: nat, path: seq<Position>)
    requires IsSquare(g, n)
  {
    && |path| > 0
    && (forall i :: 0 <= i < |path| ==> InBounds(path[i], n))
    && (forall i :: 0 <= i < |path| - 1 ==>
          Adjacent(path[i], path[i + 1]) && !WallBetween(g, n, path[i], path[i + 1]))
  }

  /** Dropping the last cell of an open path of two or more cells leaves
      an open path that ends at the cell before it. */
  lemma PathPrefix(g: seq<seq<BoardCell>>, n: nat, path: seq<Position>)
    requires IsSquare(g, n) && OpenPath(g, n, path) && |path| >= 2
    ensures var prefix := path[..|path| - 1];
      && OpenPath(g, n, prefix)
      && prefix[0] == path[0] && prefix[|prefix| - 1] == path[|path| - 2]
    ensures InBounds(path[|path| - 2], n) && InBounds(path[|path| - 1], n)
    ensures Adjacent(path[|path| - 2], path[|path| - 1]) && !WallBetween(g, n, path[|path| - 2], path[|path| - 1])
  {
  }

  /** There is an open path in `g` from `a` to `b`. */
  ghost predicate Reachable(g: seq<seq<BoardCell>>, n: nat, a: Position, b: Position)
    requires IsSquare(g, n)
  {
    exists path :: OpenPath(g, n, path) && path[0] == a && path[|path| - 1] == b
  }

  /** A spanning tree of the open edges of `g`, rooted at `root`: every other
      cell has an adjacent parent, not separated from it by a wall, whose
      depth is smaller. */
  ghost predicate TreeCertificate(g: seq<seq<BoardCell>>, n: nat, root: Position,
                                  parent: map<Position, Position>, depth: map<Position, nat>)
    requires IsSquare(g, n)
  {
    && InBounds(root, n)
    && forall c :: InBounds(c, n) ==>
         && c in depth
         && (c != root ==>
               && c in parent
               && InBounds(parent[c], n)
               && parent[c] in depth
               && Adjacent(parent[c], c)
               && !WallBetween(g, n, parent[c], c)
               && depth[parent[c]] < depth[c])
  }

  /** Following parents back to the root gives an open path to every cell. */
  lemma {:induction false} CertificateConnects(g: seq<seq<BoardCell>>, n: nat, root: Position,
                                               parent: map<Position, Position>,
                                               depth: map<Position, nat>, c: Position)
    requires IsSquare(g, n) && TreeCertificate(g, n, root, parent, depth) && InBounds(c, n)
    ensures Reachable(g, n, root, c)
    decreases depth[c]
  {
    if c == root {
      assert OpenPath(g, n, [root]);
    } else {
      var p := parent[c];
      CertificateConnects(g, n, root, parent, depth, p);
      var path :| OpenPath(g, n, path) && path[0] == root && path[|path| - 1] == p;
      var longer := path + [c];
      assert forall i :: 0 <= i < |path| ==> longer[i] == path[i];
      assert OpenPath(g, n, longer);
    }
  }

  /** Open paths can be walked backwards. */
  lemma ReachableBack(g: seq<seq<BoardCell>>, n: nat, a: Position, b: Position)
    requires IsSquare(g, n) && Reachable(g, n, a, b)
    ensures Reachable(g, n, b, a)
  {
    var path :| OpenPath(g, n, path) && path[0] == a && path[|path| - 1] == b;
    var back := seq(|path|, i requires 0 <= i < |path| => path[|path| - 1 - i]);
    forall i | 0 <= i < |back| - 1
      ensures Adjacent(back[i], back[i + 1]) && !WallBetween(g, n, back[i], back[i + 1])
    {
      var j := |path| - 2 - i;
      assert back[i] == path[j + 1] && back[i + 1] == path[j];
      assert Adjacent(path[j], path[j + 1]) && !WallBetween(g, n, path[j], path[j + 1]);
    }
    assert OpenPath(g, n, back);
  }

  /** Two open paths that meet make one. */
  lemma ReachableJoin(g: seq<seq<BoardCell>>, n: nat, a: Position, b: Position, c: Position)
    requires IsSquare(g, n) && Reachable(g, n, a, b) && Reachable(g, n, b, c)
    ensures Reachable(g, n, a, c)
  {
    var p :| OpenPath(g, n, p) && p[0] == a && p[|p| - 1] == b;
    var q :| OpenPath(g, n, q) && q[0] == b && q[|q| - 1] == c;
    var pq := p + q[1..];
    forall i | 0 <= i < |pq| - 1
      ensures Adjacent(pq[i], pq[i + 1]) && !WallBetween(g, n, pq[i], pq[i + 1])
    {
      if i < |p| - 1 {
        assert pq[i] == p[i] && pq[i + 1] == p[i + 1];
      } else {
        var j := i - (|p| - 1);
        assert pq[i] == q[j] && pq[i + 1] == q[j + 1];
      }
    }
    assert pq[|pq| - 1] == c;
    assert OpenPath(g, n, pq);
  }

  /** Every in-bounds neighbour of `v` lies in `s`. */
  ghost predicate Closed(v: Position, s: set<Position>, n: nat) {
    forall q :: InBounds(q, n) && Adjacent(v, q) ==> q in s
  }

  /** A set of cells in which every cell is closed reaches along the row of
      one of its members. */
  lemma {:induction false} WalkRow(s: set<Position>, n: nat, from: Position, x: nat)
    requires from in s && InBounds(from, n) && x < n
    requires forall v :: v in s ==> Closed(v, s, n)
    ensures Position(x, from.y) in s
    decreases if x < from.x then from.x - x else x - from.x
  {
    if x < from.x {
      WalkRow(s, n, from, x + 1);
      assert Closed(Position(x + 1, from.y), s, n);
    } else if x > from.x {
      WalkRow(s, n, from, x - 1);
      assert Closed(Position(x - 1, from.y), s, n);
    }
  }

  /** ... and along the column of one of its members. */
  lemma {:induction false} WalkColumn(s: set<Position>, n: nat, from: Position, y: nat)
    requires from in s && InBounds(from, n) && y < n
    requires forall v :: v in s ==> Closed(v, s, n)
    ensures Position(from.x, y) in s
    decreases if y < from.y then from.y - y else y - from.y
  {
    if y < from.y {
      WalkColumn(s, n, from, y + 1);
      assert Closed(Position(from.x, y + 1), s, n);
    } else if y > from.y {
      WalkColumn(s, n, from, y - 1);
      assert Closed(Position(from.x, y - 1), s, n);
    }
  }

  /** A non-empty set of cells in which every cell is closed holds the
      whole grid. */
  lemma ClosedCoversGrid(s: set<Position>, n: nat, from: Position)
    requires from in s && InBounds(from, n)
    requires forall v :: v in s ==> Closed(v, s, n)
    ensures forall c :: InBounds(c, n) ==> c in s
  {
    forall c | InBounds(c, n)
      ensures c in s
    {
      WalkRow(s, n, from, c.x);
      WalkColumn(s, n, Position(c.x, from.y), c.y);
    }
  }

  /** The cell of row-major index `i` in an `n`-wide grid. */
  function CellAt(i: nat, n: nat): (c: Position)
    requires n >= 1
    ensures c.x < n && c.y * n + c.x == i
  {
    Position(i % n, i / n)
  }

  /** A row that comes after row `a` starts at least a full row later. */
  lemma {:induction false} RowsOrdered(a: nat, b: nat, n: nat)
    requires a < b
    ensures a * n + n <= b * n
    decreases b - a
  {
    if a + 1 < b {
      RowsOrdered(a, b - 1, n);
    }
    assert b * n == (b - 1) * n + n;
  }

  /** A larger side gives a larger square. */
  lemma {:induction false} SquaresOrdered(a: nat, b: nat)
    requires a <= b
    ensures a * a <= b * b
    decreases b - a
  {
    if a < b {
      SquaresOrdered(a, b - 1);
      assert b * b == (b - 1) * (b - 1) + 2 * b - 1;
    }
  }

  /** Row-major numbering is one-to-one on the cells of the grid. */
  lemma CellAtIndex(c: Position, n: nat)
    requires n >= 1 && c.x < n
    ensures CellAt(c.y * n + c.x, n) == c
  {
    var d := CellAt(c.y * n + c.x, n);
    if d.y < c.y {
      RowsOrdered(d.y, c.y, n);
      assert false;
    } else if d.y > c.y {
      RowsOrdered(c.y, d.y, n);
      assert false;
    }
  }

  /** A set of in-bounds cells with row-major indices below `m` has at most
      `m` members, and exactly `m` only when it holds every such cell. */
  lemma {:induction false} CellsBound(v: set<Position>, n: nat, m: nat)
    requires n >= 1
    requires forall p :: p in v ==> p.x < n && p.y * n + p.x < m
    ensures |v| <= m
    ensures |v| == m ==> forall i :: 0 <= i < m ==> CellAt(i, n) in v
  {
    if m == 0 {
      assert v == {} by {
        forall p | p in v ensures false { }
      }
    } else {
      var c := CellAt(m - 1, n);
      var rest := v - {c};
      forall p | p in rest
        ensures p.x < n && p.y * n + p.x < m - 1
      {
        CellAtIndex(p, n);
      }
      CellsBound(rest, n, m - 1);
      if c in v {
        assert |v| == |rest| + 1;
      } else {
        assert rest == v;
      }
    }
  }

  /** A set of in-bounds cells with `n * n` members is the whole grid. */
  lemma FullGrid(v: set<Position>, n: nat)
    requires n >= 1
    requires forall p :: p in v ==> InBounds(p, n)
    requires |v| >= n * n
    ensures forall c :: InBounds(c, n) ==> c in v
  {
    forall p | InBounds(p, n)
      ensures p.y * n + p.x < n * n
    {
      RowsOrdered(p.y, n, n);
    }
    CellsBound(v, n, n * n);
    forall c | InBounds(c, n)
      ensures c in v
    {
      CellAtIndex(c, n);
    }
  }
}
