/**
 * What `generate_maze` (GameFiles/MazeGame.py) builds: the path cells form a tree.
 * Every path cell other than the starting cell is joined to exactly the path cell
 * it was carved from, so any two path cells are joined by a walk through path
 * cells, and no walk through path cells closes a cycle.
 */
module MazeTree {
  import opened MazeCells

  /** `maze[c.0][c.1]` exists and is a path. */
  predicate PathAt(maze: seq<seq<Cell>>, c: Coord)
  {
    0 <= c.0 < |maze| && 0 <= c.1 < |maze[c.0]| && maze[c.0][c.1].kind == Path
  }

  /** The path cells form a tree rooted at `start`: each other path cell has a
      `parent`, an adjacent path cell of smaller `rank`, and every pair of adjacent
      path cells is a parent edge. */
  ghost predicate RootedTree(maze: seq<seq<Cell>>, start: Coord, parent: map<Coord, Coord>, rank: map<Coord, nat>)
  {
    && PathAt(maze, start) && start !in parent
    && (forall c :: PathAt(maze, c) ==> c in rank && (c == start || c in parent))
    && (forall c :: c in parent ==>
          PathAt(maze, c) && PathAt(maze, parent[c]) && Adjacent(c, parent[c])
          && c in rank && parent[c] in rank && rank[parent[c]] < rank[c])
    && (forall a, b :: PathAt(maze, a) && PathAt(maze, b) && Adjacent(a, b) ==>
          (a in parent && parent[a] == b) || (b in parent && parent[b] == a))
  }

  /** A walk through path cells, each step to a cardinal neighbour. */
  predicate Walk(maze: seq<seq<Cell>>, w: seq<Coord>)
  {
    && |w| > 0
    && (forall i :: 0 <= i < |w| ==> PathAt(maze, w[i]))
    && (forall i :: 0 < i < |w| ==> Adjacent(w[i - 1], w[i]))
  }

  /** Following parents from a path cell reaches the starting cell. */
  function PathToRoot(maze: seq<seq<Cell>>, start: Coord, parent: map<Coord, Coord>, rank: map<Coord, nat>, c: Coord): (w: seq<Coord>)
    requires RootedTree(maze, start, parent, rank) && PathAt(maze, c)
    ensures Walk(maze, w) && w[0] == c && w[|w| - 1] == start
    decreases rank[c]
  {
    if c == start then [c]
    else
      var rest := PathToRoot(maze, start, parent, rank, parent[c]);
      [c] + rest
  }

  function Reverse<T>(s: seq<T>): (r: seq<T>)
    ensures |r| == |s| && forall i :: 0 <= i < |s| ==> r[i] == s[|s| - 1 - i]
  {
    if |s| == 0 then [] else Reverse(s[1..]) + [s[0]]
  }

  /** A walk read backwards is a walk. */
  lemma ReverseWalk(maze: seq<seq<Cell>>, w: seq<Coord>)
    requires Walk(maze, w)
    ensures Walk(maze, Reverse(w))
  {
    var r := Reverse(w);
    forall i | 0 < i < |r| ensures Adjacent(r[i - 1], r[i]) {
      assert r[i - 1] == w[|w| - i] && r[i] == w[|w| - 1 - i];
      assert Adjacent(w[|w| - 1 - i], w[|w| - i]);
    }
  }

  /** Two walks that meet at a cell join into one walk. */
  lemma JoinWalks(maze: seq<seq<Cell>>, u: seq<Coord>, v: seq<Coord>)
    requires Walk(maze, u) && Walk(maze, v) && u[|u| - 1] == v[0]
    ensures Walk(maze, u + v[1..]) && (u + v[1..])[0] == u[0] && (u + v[1..])[|u + v[1..]| - 1] == v[|v| - 1]
  {
    var j := u + v[1..];
    forall i | 0 < i < |j| ensures Adjacent(j[i - 1], j[i]) {
      if i < |u| {
        assert j[i - 1] == u[i - 1] && j[i] == u[i];
      } else {
        assert j[i - 1] == v[i - |u|] && j[i] == v[i - |u| + 1];
      }
    }
  }

  /** Any two path cells are joined by a walk through path cells: up from `a` to the
      starting cell and down to `b`. */
  function Connecting(maze: seq<seq<Cell>>, start: Coord, parent: map<Coord, Coord>, rank: map<Coord, nat>, a: Coord, b: Coord): (w: seq<Coord>)
    requires RootedTree(maze, start, parent, rank) && PathAt(maze, a) && PathAt(maze, b)
    ensures Walk(maze, w) && w[0] == a && w[|w| - 1] == b
  {
    var up := PathToRoot(maze, start, parent, rank, a);
    var down := Reverse(PathToRoot(maze, start, parent, rank, b));
    ReverseWalk(maze, PathToRoot(maze, start, parent, rank, b));
    JoinWalks(maze, up, down);
    up + down[1..]
  }

  predicate Distinct<T(==)>(s: seq<T>)
  {
    forall i, j :: 0 <= i < j < |s| ==> s[i] != s[j]
  }

  /** A walk of at least three distinct path cells that steps from its last cell back to its first. */
  predicate Cycle(maze: seq<seq<Cell>>, w: seq<Coord>)
  {
    |w| >= 3 && Walk(maze, w) && Adjacent(w[|w| - 1], w[0]) && Distinct(w)
  }

  /** The position in `w` of a cell of greatest rank. */
  function MaxRankIndex(w: seq<Coord>, rank: map<Coord, nat>): (m: nat)
    requires |w| > 0 && forall i :: 0 <= i < |w| ==> w[i] in rank
    ensures m < |w| && forall i :: 0 <= i < |w| ==> rank[w[i]] <= rank[w[m]]
  {
    if |w| == 1 then 0
    else
      var m := MaxRankIndex(w[..|w| - 1], rank);
      if rank[w[|w| - 1]] > rank[w[m]] then |w| - 1 else m
  }

  /** A path neighbour of a cell of greatest rank among a set can only be that cell's parent. */
  lemma NeighborOfHighest(maze: seq<seq<Cell>>, start: Coord, parent: map<Coord, Coord>, rank: map<Coord, nat>, c: Coord, n: Coord)
    requires RootedTree(maze, start, parent, rank)
    requires PathAt(maze, c) && PathAt(maze, n) && Adjacent(c, n)
    requires rank[n] <= rank[c]
    ensures c in parent && parent[c] == n
  {
    assert Adjacent(n, c);
  }

  /** The path cells hold no cycle. */
  lemma NoCycle(maze: seq<seq<Cell>>, start: Coord, parent: map<Coord, Coord>, rank: map<Coord, nat>, w: seq<Coord>)
    requires RootedTree(maze, start, parent, rank)
    ensures !Cycle(maze, w)
  {
    if Cycle(maze, w) {
      var m := MaxRankIndex(w, rank);
      var before := if m == 0 then |w| - 1 else m - 1;
      var after := if m == |w| - 1 then 0 else m + 1;
      assert Adjacent(w[before], w[m]) && Adjacent(w[m], w[after]);
      NeighborOfHighest(maze, start, parent, rank, w[m], w[before]);
      NeighborOfHighest(maze, start, parent, rank, w[m], w[after]);
      assert false;
    }
  }

  /** Two grids with the same path cells have the same trees. */
  lemma SamePathsSameTree(m1: seq<seq<Cell>>, m2: seq<seq<Cell>>, start: Coord, parent: map<Coord, Coord>, rank: map<Coord, nat>)
    requires forall c :: PathAt(m1, c) <==> PathAt(m2, c)
    requires RootedTree(m1, start, parent, rank)
    ensures RootedTree(m2, start, parent, rank)
  {
  }
}
