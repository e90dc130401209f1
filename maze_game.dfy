/**
 * `MazeGame` (GameFiles/MazeGame.py): the game state, the grid built by the
 * constructor and the randomized Prim's-style generator `generate_maze`.
 *
 * The generator carves paths out of a grid of unchecked cells. It keeps a
 * frontier of walls; it pops a random one and turns it into a path when, along
 * one axis, one side is unchecked and the other a path, and it has fewer than two
 * path neighbours. The unchecked neighbours of a new path cell become walls and
 * join the frontier. What is left unchecked at the end becomes wall.
 */
module MazeGen {
  import opened Wrappers
  import opened MazeCells
  import opened MazeTree
  import opened SaveParsing

  /** The entries of `game_state` other than the grid and its size. */
  datatype GameState = GameState(
    life: int,
    score: int,
    playerPosition: Option<Coord>,
    monsterPosition: Option<Coord>,
    traps: map<Coord, TrapInfo>,
    treasurePosition: Option<Coord>)

  // ---------------------------------------------------------------- grid updates

  /** Every cell knows its own position. */
  ghost predicate Consistent(maze: seq<seq<Cell>>, size: (nat, nat))
  {
    Shaped(maze, size) && forall c :: InBounds(size, c) ==> At(maze, c).coord == c
  }

  /** The grid with a new `MazeCell(c.0, c.1, k)` at `c`. */
  function SetKind(maze: seq<seq<Cell>>, size: (nat, nat), c: Coord, k: CellType): (r: seq<seq<Cell>>)
    requires Shaped(maze, size) && InBounds(size, c)
    ensures Shaped(r, size)
    ensures forall d :: InBounds(size, d) ==> At(r, d) == if d == c then Cell(c, k) else At(maze, d)
    ensures forall d :: PathAt(r, d) <==> if d == c then k == Path else PathAt(maze, d)
  {
    maze[c.0 := maze[c.0][c.1 := Cell(c, k)]]
  }

  /** The four neighbours of `w` in the order the generator visits them: along x first
      (`(x-1, y)`, `(x, y-1)`, `(x+1, y)`, `(x, y+1)`) or along y first. */
  function WallOffOrder(w: Coord, alongX: bool): (r: seq<Coord>)
    ensures |r| == 4 && Distinct(r)
    ensures forall d :: d in r <==> Adjacent(w, d)
  {
    if alongX then [(w.0 - 1, w.1), (w.0, w.1 - 1), (w.0 + 1, w.1), (w.0, w.1 + 1)]
    else [(w.0, w.1 - 1), (w.0 - 1, w.1), (w.0, w.1 + 1), (w.0 + 1, w.1)]
  }

  /** The positions among `ns` whose cell is unchecked, in order. */
  function Kept(maze: seq<seq<Cell>>, size: (nat, nat), ns: seq<Coord>): (r: seq<Coord>)
    requires Shaped(maze, size) && forall i :: 0 <= i < |ns| ==> InBounds(size, ns[i])
  {
    if |ns| == 0 then []
    else
      var last := ns[|ns| - 1];
      assert InBounds(size, last);
      Kept(maze, size, ns[..|ns| - 1]) + (if At(maze, last).kind == Unchecked then [last] else [])
  }

  lemma OrderInBounds(size: (nat, nat), w: Coord, alongX: bool)
    requires Interior(size, w)
    ensures forall i :: 0 <= i < 4 ==> InBounds(size, WallOffOrder(w, alongX)[i])
  {
  }

  /** The two positions the `j`-th pass of the loop visits, `offset` being `2 * j - 1`. */
  lemma OrderAt(w: Coord, alongX: bool, j: nat)
    requires j < 2
    ensures var offset := 2 * j - 1;
      && WallOffOrder(w, alongX)[2 * j] == (if alongX then (w.0 + offset, w.1) else (w.0, w.1 + offset))
      && WallOffOrder(w, alongX)[2 * j + 1] == (if alongX then (w.0, w.1 + offset) else (w.0 + offset, w.1))
  {
  }

  /** `maze` is `m0` with the unchecked cells among the first `k` of `ns` turned into walls. */
  ghost predicate MarkedUpTo(maze: seq<seq<Cell>>, m0: seq<seq<Cell>>, size: (nat, nat), ns: seq<Coord>, k: nat)
  {
    && Shaped(maze, size) && Shaped(m0, size) && k <= |ns|
    && forall d :: InBounds(size, d) ==>
         At(maze, d) == if d in ns[..k] && At(m0, d).kind == Unchecked then Cell(d, Wall) else At(m0, d)
  }

  lemma NothingMarked(maze: seq<seq<Cell>>, size: (nat, nat), ns: seq<Coord>)
    requires Shaped(maze, size) && forall i :: 0 <= i < |ns| ==> InBounds(size, ns[i])
    ensures MarkedUpTo(maze, maze, size, ns, 0) && Kept(maze, size, ns[..0]) == []
  {
    assert ns[..0] == [];
  }

  lemma KeptStep(maze: seq<seq<Cell>>, size: (nat, nat), ns: seq<Coord>, k: nat)
    requires Shaped(maze, size) && k < |ns| && forall i :: 0 <= i < |ns| ==> InBounds(size, ns[i])
    ensures Kept(maze, size, ns[..k + 1]) == Kept(maze, size, ns[..k]) + (if At(maze, ns[k]).kind == Unchecked then [ns[k]] else [])
  {
    assert ns[..k + 1][..k] == ns[..k];
  }

  /** The `k`-th position is not yet marked, and marking it (or not) completes step `k`. */
  lemma MarkedAt(maze: seq<seq<Cell>>, m0: seq<seq<Cell>>, size: (nat, nat), ns: seq<Coord>, k: nat)
    requires MarkedUpTo(maze, m0, size, ns, k) && k < |ns| && Distinct(ns) && InBounds(size, ns[k])
    ensures At(maze, ns[k]) == At(m0, ns[k])
    ensures At(maze, ns[k]).kind == Unchecked ==> MarkedUpTo(SetKind(maze, size, ns[k], Wall), m0, size, ns, k + 1)
    ensures At(maze, ns[k]).kind != Unchecked ==> MarkedUpTo(maze, m0, size, ns, k + 1)
  {
    assert ns[..k + 1] == ns[..k] + [ns[k]];
    assert ns[k] !in ns[..k];
  }

  // ---------------------------------------------------------------- the carving invariant

  /** `unchecked` is exactly the set of unchecked cells. */
  ghost predicate Tracked(maze: seq<seq<Cell>>, size: (nat, nat), unchecked: set<Coord>)
    requires Shaped(maze, size)
  {
    forall c :: c in unchecked <==> InBounds(size, c) && At(maze, c).kind == Unchecked
  }

  /** Every frontier entry is a wall of the grid, and none is there twice. */
  ghost predicate Frontier(maze: seq<seq<Cell>>, size: (nat, nat), walls: seq<Coord>)
    requires Shaped(maze, size)
  {
    (forall i :: 0 <= i < |walls| ==> InBounds(size, walls[i]) && At(maze, walls[i]).kind == Wall) && Distinct(walls)
  }

  /** What holds of the grid, the frontier and the bookkeeping between two steps of the generator:
      only the three generator types occur, no path is on the border, the paths form a
      tree, every position ever pushed onto the frontier was pushed once and is no
      longer unchecked, and every frontier entry is one of those pushes. */
  ghost predicate Carving(maze: seq<seq<Cell>>, size: (nat, nat), unchecked: set<Coord>, walls: seq<Coord>,
                          pushed: seq<Coord>, start: Coord, parent: map<Coord, Coord>, rank: map<Coord, nat>)
  {
    && Consistent(maze, size)
    && (forall c :: InBounds(size, c) ==> !At(maze, c).kind.Named?)
    && Tracked(maze, size, unchecked)
    && (forall c :: PathAt(maze, c) ==> Interior(size, c))
    && Frontier(maze, size, walls)
    && RootedTree(maze, start, parent, rank)
    && Distinct(pushed) && (forall i :: 0 <= i < |pushed| ==> pushed[i] !in unchecked)
    && (forall i :: 0 <= i < |walls| ==> walls[i] in pushed)
  }

  /** The history `pushed` grew by exactly the entries appended to the frontier,
      which only grew, from `walls0` to `walls`. */
  predicate PushedAlong(pushed0: seq<Coord>, walls0: seq<Coord>, pushed: seq<Coord>, walls: seq<Coord>)
  {
    walls0 <= walls && pushed == pushed0 + walls[|walls0|..]
  }

  lemma PushedAlongNothing(pushed: seq<Coord>, walls: seq<Coord>)
    ensures PushedAlong(pushed, walls, pushed, walls)
  {
    assert walls[|walls|..] == [];
  }

  lemma PushedFromNothing(p0: seq<Coord>, w0: seq<Coord>, p: seq<Coord>, w: seq<Coord>)
    requires p0 == [] && w0 == [] && PushedAlong(p0, w0, p, w)
    ensures p == w
  {
    assert w[|w0|..] == w;
  }

  lemma PushedAlongTrans(p0: seq<Coord>, w0: seq<Coord>, p1: seq<Coord>, w1: seq<Coord>, p2: seq<Coord>, w2: seq<Coord>)
    requires PushedAlong(p0, w0, p1, w1) && PushedAlong(p1, w1, p2, w2)
    ensures PushedAlong(p0, w0, p2, w2)
  {
    assert w2[|w0|..] == w1[|w0|..] + w2[|w1|..];
  }

  /** Marking an unchecked cell as a wall and pushing it keeps the invariant. */
  lemma MarkWallCarving(maze: seq<seq<Cell>>, size: (nat, nat), unchecked: set<Coord>, walls: seq<Coord>,
                        pushed: seq<Coord>, start: Coord, parent: map<Coord, Coord>, rank: map<Coord, nat>, c: Coord)
    requires Carving(maze, size, unchecked, walls, pushed, start, parent, rank) && c in unchecked
    ensures InBounds(size, c)
    ensures Carving(SetKind(maze, size, c, Wall), size, unchecked - {c}, walls + [c], pushed + [c], start, parent, rank)
  {
    var m := SetKind(maze, size, c, Wall);
    SamePathsSameTree(maze, m, start, parent, rank);
    assert forall i :: 0 <= i < |walls| ==> walls[i] != c;
  }

  /** Turning a frontier wall into a path next to the path cell `p` keeps the invariant
      when `p` is its only path neighbour; `p` becomes its parent. */
  lemma SetPathCarving(maze: seq<seq<Cell>>, size: (nat, nat), unchecked: set<Coord>, walls: seq<Coord>,
                       pushed: seq<Coord>, start: Coord, parent: map<Coord, Coord>, rank: map<Coord, nat>, w: Coord, p: Coord)
    requires Carving(maze, size, unchecked, walls, pushed, start, parent, rank)
    requires InBounds(size, w) && At(maze, w).kind == Wall && w !in walls && Interior(size, w)
    requires Adjacent(w, p) && PathAt(maze, p)
    requires |Neighbors(maze, size, w, OfType(Path))| < 2
    ensures p in rank
    ensures Carving(SetKind(maze, size, w, Path), size, unchecked, walls, pushed, start, parent[w := p], Ranked(rank, w, p))
  {
    var m := SetKind(maze, size, w, Path);
    FewPathNeighbors(maze, size, w, p);
    TreeGrows(maze, m, size, start, parent, rank, w, p);
  }

  /** `w` one step further from the starting cell than its parent `p`. */
  function Ranked(rank: map<Coord, nat>, w: Coord, p: Coord): (r: map<Coord, nat>)
    requires p in rank
    ensures w in r && r[w] == rank[p] + 1
  {
    rank[w := rank[p] + 1]
  }

  lemma TreeGrows(maze: seq<seq<Cell>>, m: seq<seq<Cell>>, size: (nat, nat), start: Coord, parent: map<Coord, Coord>,
                  rank: map<Coord, nat>, w: Coord, p: Coord)
    requires RootedTree(maze, start, parent, rank) && !PathAt(maze, w)
    requires forall d :: PathAt(m, d) <==> d == w || PathAt(maze, d)
    requires Adjacent(w, p) && PathAt(maze, p)
    requires forall n :: PathAt(maze, n) && Adjacent(w, n) ==> n == p
    ensures p in rank && RootedTree(m, start, parent[w := p], Ranked(rank, w, p))
  {
    TreeGrowsLinks(maze, m, start, parent, rank, w, p, parent[w := p], Ranked(rank, w, p));
    TreeGrowsEdges(maze, m, start, parent, rank, w, p);
  }

  /** Hanging `w` below `p` keeps every link between adjacent path cells, each parent
      ranked below its child. */
  lemma TreeGrowsLinks(maze: seq<seq<Cell>>, m: seq<seq<Cell>>, start: Coord, parent: map<Coord, Coord>,
                       rank: map<Coord, nat>, w: Coord, p: Coord, parent': map<Coord, Coord>, rank': map<Coord, nat>)
    requires RootedTree(maze, start, parent, rank) && !PathAt(maze, w)
    requires forall d :: PathAt(m, d) <==> d == w || PathAt(maze, d)
    requires Adjacent(w, p) && PathAt(maze, p)
    requires p in rank && parent' == parent[w := p] && rank' == Ranked(rank, w, p)
    ensures forall c :: PathAt(m, c) ==> c in rank' && (c == start || c in parent')
    ensures forall c :: c in parent' ==>
      PathAt(m, c) && PathAt(m, parent'[c]) && Adjacent(c, parent'[c])
      && c in rank' && parent'[c] in rank' && rank'[parent'[c]] < rank'[c]
  {
    forall c | c in parent'
      ensures PathAt(m, c) && PathAt(m, parent'[c]) && Adjacent(c, parent'[c])
      ensures c in rank' && parent'[c] in rank' && rank'[parent'[c]] < rank'[c]
    {
      if c != w {
        assert parent'[c] == parent[c] && parent[c] != w;
        assert rank'[c] == rank[c] && rank'[parent[c]] == rank[parent[c]];
      }
    }
  }

  /** After hanging `w` below its only path neighbour `p`, every two adjacent path cells
      are still linked one way or the other. */
  lemma TreeGrowsEdges(maze: seq<seq<Cell>>, m: seq<seq<Cell>>, start: Coord, parent: map<Coord, Coord>,
                       rank: map<Coord, nat>, w: Coord, p: Coord)
    requires RootedTree(maze, start, parent, rank) && !PathAt(maze, w)
    requires forall d :: PathAt(m, d) <==> d == w || PathAt(maze, d)
    requires Adjacent(w, p) && PathAt(maze, p)
    requires forall n :: PathAt(maze, n) && Adjacent(w, n) ==> n == p
    ensures forall a, b :: PathAt(m, a) && PathAt(m, b) && Adjacent(a, b) ==>
      (a in parent[w := p] && parent[w := p][a] == b) || (b in parent[w := p] && parent[w := p][b] == a)
  {
    var parent' := parent[w := p];
    forall a, b | PathAt(m, a) && PathAt(m, b) && Adjacent(a, b)
      ensures (a in parent' && parent'[a] == b) || (b in parent' && parent'[b] == a)
    {
      if a == w {
        assert b == p;
      } else if b == w {
        assert Adjacent(w, a);
        assert a == p;
      }
    }
  }

  /** Popping an entry leaves a frontier without it. */
  lemma PopCarving(maze: seq<seq<Cell>>, size: (nat, nat), unchecked: set<Coord>, walls: seq<Coord>,
                   pushed: seq<Coord>, start: Coord, parent: map<Coord, Coord>, rank: map<Coord, nat>, i: nat)
    requires Carving(maze, size, unchecked, walls, pushed, start, parent, rank) && i < |walls|
    ensures Carving(maze, size, unchecked, walls[..i] + walls[i + 1..], pushed, start, parent, rank)
    ensures walls[i] !in walls[..i] + walls[i + 1..]
  {
    var rest := walls[..i] + walls[i + 1..];
    assert forall k :: 0 <= k < |rest| ==> rest[k] == walls[if k < i then k else k + 1];
  }

  /** The cell `offset` away from `w` along x (`alongX`) or along y. */
  function Across(w: Coord, alongX: bool, offset: int): Coord
  {
    if alongX then (w.0 + offset, w.1) else (w.0, w.1 + offset)
  }

  /** The conversion test for the popped wall `w` along one axis: the cell ahead
      (`offset`) is unchecked, the cell behind is a path, and `w` has fewer than two
      path neighbours. */
  predicate Converts(maze: seq<seq<Cell>>, size: (nat, nat), w: Coord, alongX: bool, offset: int)
    requires Shaped(maze, size) && InBounds(size, w) && (offset == -1 || offset == 1)
    requires if alongX then 0 < w.0 < size.0 - 1 else 0 < w.1 < size.1 - 1
  {
    && At(maze, Across(w, alongX, offset)).kind == Unchecked
    && At(maze, Across(w, alongX, -offset)).kind == Path
    && |Neighbors(maze, size, w, OfType(Path))| < 2
  }

  /** No neighbour of `w` is unchecked. */
  ghost predicate Walled(maze: seq<seq<Cell>>, size: (nat, nat), w: Coord)
    requires Shaped(maze, size)
  {
    forall d :: InBounds(size, d) && Adjacent(w, d) ==> At(maze, d).kind != Unchecked
  }

  /** After the walling-off loop, no neighbour of the new path cell is unchecked. */
  lemma WalledOff(maze: seq<seq<Cell>>, m0: seq<seq<Cell>>, size: (nat, nat), w: Coord, alongX: bool)
    requires MarkedUpTo(maze, m0, size, WallOffOrder(w, alongX), 4)
    ensures Walled(maze, size, w)
  {
    var ns := WallOffOrder(w, alongX);
    assert ns[..4] == ns;
  }

  /** When every position is unchecked, all of them are kept. */
  lemma {:induction false} KeptAll(maze: seq<seq<Cell>>, size: (nat, nat), ns: seq<Coord>)
    requires Shaped(maze, size) && forall i :: 0 <= i < |ns| ==> InBounds(size, ns[i]) && At(maze, ns[i]).kind == Unchecked
    ensures Kept(maze, size, ns) == ns
  {
    if |ns| > 0 {
      KeptAll(maze, size, ns[..|ns| - 1]);
      assert ns[..|ns| - 1] + [ns[|ns| - 1]] == ns;
    }
  }

  /** A fresh grid with the starting cell made a path satisfies the invariant, with an
      empty frontier and every other cell unchecked. */
  lemma StartCarving(maze: seq<seq<Cell>>, size: (nat, nat), s: Coord) returns (unchecked: set<Coord>)
    requires Shaped(maze, size) && forall c :: InBounds(size, c) ==> At(maze, c) == Cell(c, Unchecked)
    requires Interior(size, s)
    ensures Carving(SetKind(maze, size, s, Path), size, unchecked, [], [], s, map[], map[s := 0])
  {
    unchecked := set x: int, y: int | 0 <= x < size.0 && 0 <= y < size.1 && (x, y) != s :: (x, y);
    var m := SetKind(maze, size, s, Path);
    forall c ensures c in unchecked <==> InBounds(size, c) && At(m, c).kind == Unchecked {
      if InBounds(size, c) && c != s {
        assert c == (c.0, c.1);
      }
    }
    forall c | PathAt(m, c) ensures c == s {
      if c != s {
        assert PathAt(maze, c) && InBounds(size, c);
      }
    }
  }

  /** On a fresh grid every neighbour of the starting cell is unchecked, so all four are pushed. */
  lemma SeedFrontier(maze: seq<seq<Cell>>, size: (nat, nat), s: Coord)
    requires Shaped(maze, size) && forall c :: InBounds(size, c) ==> At(maze, c) == Cell(c, Unchecked)
    requires Interior(size, s)
    ensures var ns := WallOffOrder(s, true);
      && (forall i :: 0 <= i < |ns| ==> InBounds(size, ns[i]))
      && Kept(SetKind(maze, size, s, Path), size, ns) == ns
  {
    var ns := WallOffOrder(s, true);
    var m1 := SetKind(maze, size, s, Path);
    assert forall i :: 0 <= i < |ns| ==> InBounds(size, ns[i]) && At(m1, ns[i]).kind == Unchecked;
    KeptAll(m1, size, ns);
  }

  /** The grid after seeding: the start a path, its neighbours walls, the rest unchecked. */
  lemma SeedGrid(maze: seq<seq<Cell>>, m0: seq<seq<Cell>>, size: (nat, nat), s: Coord)
    requires Shaped(m0, size) && forall c :: InBounds(size, c) ==> At(m0, c) == Cell(c, Unchecked)
    requires Interior(size, s)
    requires MarkedUpTo(maze, SetKind(m0, size, s, Path), size, WallOffOrder(s, true), 4)
    ensures forall d :: InBounds(size, d) ==>
      At(maze, d) == if d == s then Cell(s, Path) else if Adjacent(s, d) then Cell(d, Wall) else Cell(d, Unchecked)
  {
    var ns := WallOffOrder(s, true);
    assert ns[..4] == ns;
  }

  /** The state after the popped wall `w` was converted along one axis, from the grid
      `m0`, frontier `walls0` and tree `parent0`/`rank0`: `w` is a path whose parent is
      the path cell behind it, and its unchecked neighbours became walls and were
      pushed in the visiting order. */
  ghost predicate Converted(m0: seq<seq<Cell>>, walls0: seq<Coord>, parent0: map<Coord, Coord>, rank0: map<Coord, nat>,
                            maze: seq<seq<Cell>>, walls: seq<Coord>, parent: map<Coord, Coord>, rank: map<Coord, nat>,
                            size: (nat, nat), w: Coord, alongX: bool, offset: int)
    requires Shaped(m0, size) && Interior(size, w)
  {
    var behind := Across(w, alongX, -offset);
    var m1 := SetKind(m0, size, w, Path);
    var ns := WallOffOrder(w, alongX);
    && MarkedUpTo(maze, m1, size, ns, 4)
    && (forall i :: 0 <= i < |ns| ==> InBounds(size, ns[i]))
    && walls == walls0 + Kept(m1, size, ns)
    && behind in rank0 && parent == parent0[w := behind] && rank == Ranked(rank0, w, behind)
  }

  /** The effects of `SetPath` and `WallOff` compose to a conversion. */
  lemma ConversionDone(m0: seq<seq<Cell>>, walls0: seq<Coord>, parent0: map<Coord, Coord>, rank0: map<Coord, nat>, m1: seq<seq<Cell>>,
                       maze: seq<seq<Cell>>, walls: seq<Coord>, parent: map<Coord, Coord>, rank: map<Coord, nat>,
                       size: (nat, nat), w: Coord, alongX: bool, offset: int)
    requires Shaped(m0, size) && Interior(size, w)
    requires m1 == SetKind(m0, size, w, Path)
    requires MarkedUpTo(maze, m1, size, WallOffOrder(w, alongX), 4)
    requires walls == walls0 + Kept(m1, size, WallOffOrder(w, alongX))
    requires Across(w, alongX, -offset) in rank0
    requires parent == parent0[w := Across(w, alongX, -offset)]
    requires rank == Ranked(rank0, w, Across(w, alongX, -offset))
    ensures Converted(m0, walls0, parent0, rank0, maze, walls, parent, rank, size, w, alongX, offset)
    ensures forall d :: PathAt(m0, d) ==> PathAt(maze, d)
  {
    forall d | PathAt(m0, d) ensures PathAt(maze, d) {
      assert InBounds(size, d) && PathAt(m1, d);
    }
  }

  /** The guarded checks of a popped wall in the order lines 67-101 make them while
      none converts: along x, then along y, with `offset` -1 and then 1. */
  const CheckOrder: seq<(bool, int)> := [(true, -1), (false, -1), (true, 1), (false, 1)]

  predicate UnitChecks(checks: seq<(bool, int)>)
  {
    forall i :: 0 <= i < |checks| ==> checks[i].1 == -1 || checks[i].1 == 1
  }

  lemma OrderPrefixes()
    ensures forall k :: 0 <= k <= |CheckOrder| ==> UnitChecks(CheckOrder[..k])
  {
  }

  /** One guarded check: the range test of line 68 or 87, then the conversion test. */
  predicate Fires(maze: seq<seq<Cell>>, size: (nat, nat), w: Coord, check: (bool, int))
    requires Shaped(maze, size) && InBounds(size, w) && (check.1 == -1 || check.1 == 1)
  {
    && (if check.0 then 0 < w.0 < size.0 - 1 else 0 < w.1 < size.1 - 1)
    && Converts(maze, size, w, check.0, check.1)
  }

  /** The first of `checks` that fires on `maze`, or `None` when none does. */
  function FirstFiring(maze: seq<seq<Cell>>, size: (nat, nat), w: Coord, checks: seq<(bool, int)>): (r: Option<(bool, int)>)
    requires Shaped(maze, size) && InBounds(size, w) && UnitChecks(checks)
    ensures r.Some? ==> r.value in checks && Fires(maze, size, w, r.value)
  {
    if |checks| == 0 then None
    else
      var f := FirstFiring(maze, size, w, checks[..|checks| - 1]);
      if f.Some? then f
      else if Fires(maze, size, w, checks[|checks| - 1]) then Some(checks[|checks| - 1])
      else None
  }

  /** `FirstFiring` is `None` exactly when no check fires. */
  lemma {:induction false} FirstFiringNone(maze: seq<seq<Cell>>, size: (nat, nat), w: Coord, checks: seq<(bool, int)>)
    requires Shaped(maze, size) && InBounds(size, w) && UnitChecks(checks)
    ensures FirstFiring(maze, size, w, checks).None? <==> forall i :: 0 <= i < |checks| ==> !Fires(maze, size, w, checks[i])
  {
    if |checks| > 0 {
      var init := checks[..|checks| - 1];
      InitUnit(checks);
      FirstFiringNone(maze, size, w, init);
      assert forall i :: 0 <= i < |init| ==> init[i] == checks[i];
    }
  }

  /** `FirstFiring` names the check of least index that fires. */
  lemma {:induction false} FirstFiringIsFirst(maze: seq<seq<Cell>>, size: (nat, nat), w: Coord, checks: seq<(bool, int)>)
    requires Shaped(maze, size) && InBounds(size, w) && UnitChecks(checks)
    requires FirstFiring(maze, size, w, checks).Some?
    ensures exists i :: 0 <= i < |checks| && checks[i] == FirstFiring(maze, size, w, checks).value &&
                        Fires(maze, size, w, checks[i]) && (forall j :: 0 <= j < i ==> !Fires(maze, size, w, checks[j]))
  {
    var n := |checks| - 1;
    var init := checks[..n];
    InitUnit(checks);
    assert forall i :: 0 <= i < n ==> init[i] == checks[i];
    var f := FirstFiring(maze, size, w, init);
    if f.Some? {
      FirstFiringIsFirst(maze, size, w, init);
      var i :| 0 <= i < |init| && init[i] == f.value && Fires(maze, size, w, init[i]) &&
               forall j :: 0 <= j < i ==> !Fires(maze, size, w, init[j]);
      assert checks[i] == f.value;
    } else {
      FirstFiringNone(maze, size, w, init);
      assert checks[n] == FirstFiring(maze, size, w, checks).value;
    }
  }

  lemma InitUnit(checks: seq<(bool, int)>)
    requires UnitChecks(checks) && |checks| > 0
    ensures UnitChecks(checks[..|checks| - 1])
  {
    var init := checks[..|checks| - 1];
    forall i | 0 <= i < |init| ensures init[i].1 == -1 || init[i].1 == 1 {
      assert init[i] == checks[i];
    }
  }

  lemma FiringStep(maze: seq<seq<Cell>>, size: (nat, nat), w: Coord, checks: seq<(bool, int)>, k: nat)
    requires Shaped(maze, size) && InBounds(size, w) && UnitChecks(checks) && k < |checks|
    ensures FirstFiring(maze, size, w, checks[..k + 1]) ==
      var f := FirstFiring(maze, size, w, checks[..k]);
      if f.Some? then f else if Fires(maze, size, w, checks[k]) then Some(checks[k]) else None
  {
    assert checks[..k + 1][..k] == checks[..k];
  }

  /** Once no neighbour of `w` is unchecked, no check of `w` fires. */
  lemma WalledQuiet(maze: seq<seq<Cell>>, size: (nat, nat), w: Coord, check: (bool, int))
    requires Shaped(maze, size) && InBounds(size, w) && (check.1 == -1 || check.1 == 1)
    requires Walled(maze, size, w)
    ensures !Fires(maze, size, w, check)
  {
    if if check.0 then 0 < w.0 < size.0 - 1 else 0 < w.1 < size.1 - 1 {
      var ahead := Across(w, check.0, check.1);
      assert InBounds(size, ahead) && Adjacent(w, ahead);
    }
  }

  /** The outcome of checking the popped wall `w`, from the grid `m0`, frontier
      `walls0` and tree `parent0`/`rank0`: nothing changes when `first` is `None`, and
      otherwise `w` is converted along the check `first` names. */
  ghost predicate CheckedAs(m0: seq<seq<Cell>>, walls0: seq<Coord>, parent0: map<Coord, Coord>, rank0: map<Coord, nat>,
                            maze: seq<seq<Cell>>, walls: seq<Coord>, parent: map<Coord, Coord>, rank: map<Coord, nat>,
                            size: (nat, nat), w: Coord, first: Option<(bool, int)>)
    requires Shaped(m0, size)
  {
    match first
    case None => maze == m0 && walls == walls0 && parent == parent0 && rank == rank0
    case Some(c) => Interior(size, w) && Converted(m0, walls0, parent0, rank0, maze, walls, parent, rank, size, w, c.0, c.1)
  }

  /** The `j`-th guarded check of `w` (along `alongX`), when checking began on the grid
      `m0`: after a conversion, `w` has no unchecked neighbour and the check does not
      fire; before one, nothing has changed and the check is `CheckOrder[j]` on `m0`. */
  lemma CheckStep(m0: seq<seq<Cell>>, walls0: seq<Coord>, parent0: map<Coord, Coord>, rank0: map<Coord, nat>,
                  maze: seq<seq<Cell>>, walls: seq<Coord>, parent: map<Coord, Coord>, rank: map<Coord, nat>,
                  size: (nat, nat), w: Coord, alongX: bool, offset: int, j: nat)
    requires Shaped(m0, size) && Shaped(maze, size) && InBounds(size, w)
    requires PathAt(maze, w) ==> Walled(maze, size, w)
    requires j < |CheckOrder| && CheckOrder[j].0 == alongX && (offset == -1 || offset == 1)
    requires UnitChecks(CheckOrder[..j]) && UnitChecks(CheckOrder[..j + 1])
    requires CheckedAs(m0, walls0, parent0, rank0, maze, walls, parent, rank, size, w, FirstFiring(m0, size, w, CheckOrder[..j]))
    requires FirstFiring(m0, size, w, CheckOrder[..j]).None? ==> offset == CheckOrder[j].1
    ensures var f := FirstFiring(m0, size, w, CheckOrder[..j]);
      var guard := if alongX then 0 < w.0 < size.0 - 1 else 0 < w.1 < size.1 - 1;
      && (f.Some? ==> FirstFiring(m0, size, w, CheckOrder[..j + 1]) == f && (guard ==> !Converts(maze, size, w, alongX, offset)))
      && (f.None? ==> FirstFiring(m0, size, w, CheckOrder[..j + 1]) ==
                      if guard && Converts(maze, size, w, alongX, offset) then Some((alongX, offset)) else None)
  {
    FiringStep(m0, size, w, CheckOrder, j);
    var f := FirstFiring(m0, size, w, CheckOrder[..j]);
    if f.Some? {
      ConvertedPath(m0, walls0, parent0, rank0, maze, walls, parent, rank, size, w, f.value.0, f.value.1);
      WalledQuiet(maze, size, w, (alongX, offset));
    }
  }

  /** A converted wall is a path. */
  lemma ConvertedPath(m0: seq<seq<Cell>>, walls0: seq<Coord>, parent0: map<Coord, Coord>, rank0: map<Coord, nat>,
                      maze: seq<seq<Cell>>, walls: seq<Coord>, parent: map<Coord, Coord>, rank: map<Coord, nat>,
                      size: (nat, nat), w: Coord, alongX: bool, offset: int)
    requires Shaped(m0, size) && Interior(size, w)
    requires Converted(m0, walls0, parent0, rank0, maze, walls, parent, rank, size, w, alongX, offset)
    ensures PathAt(maze, w)
  {
    assert InBounds(size, w) && At(SetKind(m0, size, w, Path), w).kind == Path;
  }

  /** The state after one iteration of the main loop popped entry `i` of the frontier
      `walls0` and checked it, from the grid `m0`, history `pushed0` and tree
      `parent0`/`rank0`: the outcome of the first firing check, the history grown by
      exactly the new frontier entries, and the popped entry a path exactly when one of
      its checks fired. */
  ghost predicate PoppedAndChecked(m0: seq<seq<Cell>>, walls0: seq<Coord>, pushed0: seq<Coord>,
                                   parent0: map<Coord, Coord>, rank0: map<Coord, nat>,
                                   maze: seq<seq<Cell>>, walls: seq<Coord>, pushed: seq<Coord>,
                                   parent: map<Coord, Coord>, rank: map<Coord, nat>, size: (nat, nat), i: int)
    requires Shaped(m0, size) && Frontier(m0, size, walls0) && 0 <= i < |walls0|
  {
    var w := walls0[i];
    var rest := walls0[..i] + walls0[i + 1..];
    var first := FirstFiring(m0, size, w, CheckOrder);
    && CheckedAs(m0, rest, parent0, rank0, maze, walls, parent, rank, size, w, first)
    && PushedAlong(pushed0, rest, pushed, walls)
    && (PathAt(maze, w) <==> first.Some?)
  }

  lemma PoppedOutcome(m0: seq<seq<Cell>>, walls0: seq<Coord>, pushed0: seq<Coord>,
                      parent0: map<Coord, Coord>, rank0: map<Coord, nat>,
                      maze: seq<seq<Cell>>, walls: seq<Coord>, pushed: seq<Coord>,
                      parent: map<Coord, Coord>, rank: map<Coord, nat>, size: (nat, nat), i: int)
    requires Shaped(m0, size) && Frontier(m0, size, walls0) && 0 <= i < |walls0|
    requires CheckedAs(m0, walls0[..i] + walls0[i + 1..], parent0, rank0, maze, walls, parent, rank, size, walls0[i],
                       FirstFiring(m0, size, walls0[i], CheckOrder))
    requires PushedAlong(pushed0, walls0[..i] + walls0[i + 1..], pushed, walls)
    ensures PoppedAndChecked(m0, walls0, pushed0, parent0, rank0, maze, walls, pushed, parent, rank, size, i)
  {
    var w := walls0[i];
    var first := FirstFiring(m0, size, w, CheckOrder);
    if first.Some? {
      ConvertedPath(m0, walls0[..i] + walls0[i + 1..], parent0, rank0, maze, walls, parent, rank, size, w, first.value.0, first.value.1);
    }
  }

  // ---------------------------------------------------------------- the class

  class MazeGame {
    /** `maze_size`: the number of rows and the length of each row. */
    const mazeSize: (nat, nat)
    /** The grid, `maze[x][y]`; the same list as `game_state['maze']`. */
    var maze: seq<seq<Cell>>
    /** The frontier of the generator. */
    var walls: seq<Coord>
    var gameState: GameState

    /** The cells still unchecked. */
    ghost var unchecked: set<Coord>
    /** Every position ever pushed onto the frontier, in order. */
    ghost var pushed: seq<Coord>
    /** The tree the carved paths form. */
    ghost var start: Coord
    ghost var parent: map<Coord, Coord>
    ghost var rank: map<Coord, nat>

    ghost predicate Generating()
      reads this
    {
      Carving(maze, mazeSize, unchecked, walls, pushed, start, parent, rank)
    }

    /** `MazeGame(maze_size)`: the initial game state and a grid of unchecked cells. */
    constructor(size: (nat, nat))
      ensures mazeSize == size && walls == []
      ensures gameState == GameState(3, 0, None, None, map[], None)
      ensures Shaped(maze, size) && forall c :: InBounds(size, c) ==> At(maze, c) == Cell(c, Unchecked)
    {
      mazeSize := size;
      gameState := GameState(3, 0, None, None, map[], None);
      walls := [];
      var grid: seq<seq<Cell>> := [];
      var x := 0;
      while x < size.0
        invariant 0 <= x <= size.0 && |grid| == x
        invariant forall i :: 0 <= i < x ==> |grid[i]| == size.1
        invariant forall i, j :: 0 <= i < x && 0 <= j < size.1 ==> grid[i][j] == Cell((i, j), Unchecked)
      {
        var line: seq<Cell> := [];
        var y := 0;
        while y < size.1
          invariant 0 <= y <= size.1 && |line| == y
          invariant forall j :: 0 <= j < y ==> line[j] == Cell((x, j), Unchecked)
        {
          line := line + [Cell((x, y), Unchecked)];
          y := y + 1;
        }
        grid := grid + [line];
        x := x + 1;
      }
      maze := grid;
    }

    /** Mark an unchecked cell as a wall and push it onto the frontier. */
    method MarkWall(c: Coord)
      requires Generating() && c in unchecked
      modifies this
      ensures Generating() && InBounds(mazeSize, c)
      ensures maze == SetKind(old(maze), mazeSize, c, Wall) && walls == old(walls) + [c]
      ensures unchecked == old(unchecked) - {c} && pushed == old(pushed) + [c]
      ensures start == old(start) && parent == old(parent) && rank == old(rank) && gameState == old(gameState)
    {
      MarkWallCarving(maze, mazeSize, unchecked, walls, pushed, start, parent, rank, c);
      maze := SetKind(maze, mazeSize, c, Wall);
      walls := walls + [c];
      unchecked := unchecked - {c};
      pushed := pushed + [c];
    }

    /** Turn the wall `w` into a path; its only path neighbour `p` becomes its parent. */
    method SetPath(w: Coord, p: Coord)
      requires Generating() && InBounds(mazeSize, w) && At(maze, w).kind == Wall && w !in walls && Interior(mazeSize, w)
      requires Adjacent(w, p) && PathAt(maze, p) && |Neighbors(maze, mazeSize, w, OfType(Path))| < 2
      modifies this
      ensures Generating()
      ensures maze == SetKind(old(maze), mazeSize, w, Path) && walls == old(walls)
      ensures p in old(rank) && parent == old(parent)[w := p] && rank == Ranked(old(rank), w, p)
      ensures unchecked == old(unchecked) && pushed == old(pushed) && start == old(start) && gameState == old(gameState)
    {
      SetPathCarving(maze, mazeSize, unchecked, walls, pushed, start, parent, rank, w, p);
      maze := SetKind(maze, mazeSize, w, Path);
      parent := parent[w := p];
      rank := Ranked(rank, w, p);
    }

    /** Between the checks of the walling-off loop for the new path cell `w`: the first `k`
        of the positions `ns` it visits are done, starting from the grid `m0` and the
        frontier `walls0`, and the termination measure is still `count`. */
    ghost predicate WallingOff(w: Coord, m0: seq<seq<Cell>>, walls0: seq<Coord>, ns: seq<Coord>, k: nat, count: int)
      reads this
    {
      && Generating() && Shaped(m0, mazeSize)
      && |ns| == 4 && Distinct(ns) && k <= 4
      && (forall i :: 0 <= i < |ns| ==> InBounds(mazeSize, ns[i]) && ns[i] != w)
      && PathAt(maze, w) && w !in walls && |unchecked| + |walls| == count
      && MarkedUpTo(maze, m0, mazeSize, ns, k) && walls == walls0 + Kept(m0, mazeSize, ns[..k])
    }

    /** One check of that loop: if the cell at `a`, the `k`-th position visited, is
        unchecked, it becomes a wall and is pushed. */
    method MarkIfUnchecked(a: Coord, ghost w: Coord, ghost m0: seq<seq<Cell>>, ghost walls0: seq<Coord>,
                           ghost ns: seq<Coord>, ghost k: nat, ghost count: int)
      requires WallingOff(w, m0, walls0, ns, k, count) && k < 4 && ns[k] == a
      modifies this
      ensures WallingOff(w, m0, walls0, ns, k + 1, count)
      ensures walls == old(walls) + (if At(old(maze), a).kind == Unchecked then [a] else [])
      ensures PushedAlong(old(pushed), old(walls), pushed, walls)
      ensures start == old(start) && parent == old(parent) && rank == old(rank) && gameState == old(gameState)
    {
      KeptStep(m0, mazeSize, ns, k);
      MarkedAt(maze, m0, mazeSize, ns, k);
      if maze[a.0][a.1].kind == Unchecked {
        MarkWall(a);
        assert walls[|old(walls)|..] == [a];
      } else {
        PushedAlongNothing(pushed, walls);
      }
    }

    /** One pass of that loop: the two checks for one `offset`, `done` positions having
        been visited before. */
    method WallOffPass(w: Coord, alongX: bool, offset: int, ghost m0: seq<seq<Cell>>, ghost walls0: seq<Coord>,
                       ghost done: nat, ghost count: int)
      requires offset == -1 || offset == 1
      requires done == offset + 1
      requires WallingOff(w, m0, walls0, WallOffOrder(w, alongX), done, count)
      modifies this
      ensures WallingOff(w, m0, walls0, WallOffOrder(w, alongX), done + 2, count)
      ensures PushedAlong(old(pushed), old(walls), pushed, walls)
      ensures start == old(start) && parent == old(parent) && rank == old(rank) && gameState == old(gameState)
    {
      ghost var ns := WallOffOrder(w, alongX);
      OrderAt(w, alongX, if offset == -1 then 0 else 1);
      var a := if alongX then (w.0 + offset, w.1) else (w.0, w.1 + offset);
      MarkIfUnchecked(a, w, m0, walls0, ns, done, count);
      ghost var pushed1, walls1 := pushed, walls;
      var b := if alongX then (w.0, w.1 + offset) else (w.0 + offset, w.1);
      MarkIfUnchecked(b, w, m0, walls0, ns, done + 1, count);
      assert done + 1 + 1 == done + 2;  // lines up the step count with the ensures
      PushedAlongTrans(old(pushed), old(walls), pushed1, walls1, pushed, walls);
    }

    /** The inner `for offset in range(-1, 2, 2)` after a conversion: every unchecked
        neighbour of the new path cell `w` becomes a wall and is pushed, in the visiting
        order. The loop variable keeps its last value, `1`, which is returned. */
    method WallOff(w: Coord, alongX: bool) returns (offset: int)
      requires Generating() && Interior(mazeSize, w) && PathAt(maze, w) && w !in walls
      modifies this
      ensures Generating() && PathAt(maze, w) && w !in walls && offset == 1
      ensures MarkedUpTo(maze, old(maze), mazeSize, WallOffOrder(w, alongX), 4)
      ensures walls == old(walls) + Kept(old(maze), mazeSize, WallOffOrder(w, alongX))
      ensures |unchecked| + |walls| == old(|unchecked| + |walls|)
      ensures PushedAlong(old(pushed), old(walls), pushed, walls)
      ensures start == old(start) && parent == old(parent) && rank == old(rank) && gameState == old(gameState)
    {
      ghost var m0, walls0, count := maze, walls, |unchecked| + |walls|;
      ghost var ns := WallOffOrder(w, alongX);
      assert forall i :: 0 <= i < |ns| ==> InBounds(mazeSize, ns[i]) && ns[i] != w;
      NothingMarked(maze, mazeSize, ns);
      PushedAlongNothing(pushed, walls);
      offset := -1;
      var j := 0;
      while j < 2
        invariant 0 <= j <= 2 && (j == 2 ==> offset == 1)
        invariant WallingOff(w, m0, walls0, ns, 2 * j, count)
        invariant PushedAlong(old(pushed), old(walls), pushed, walls)
        invariant start == old(start) && parent == old(parent) && rank == old(rank) && gameState == old(gameState)
      {
        offset := 2 * j - 1;
        ghost var pushed1, walls1 := pushed, walls;
        WallOffPass(w, alongX, offset, m0, walls0, 2 * j, count);
        PushedAlongTrans(old(pushed), old(walls), pushed1, walls1, pushed, walls);
        j := j + 1;
      }
      assert ns[..4] == ns;
    }

    /** The frontier entry `w` has been popped: it is still a wall, or it has become a
        path with no unchecked neighbour. */
    ghost predicate Popped(w: Coord)
      reads this
    {
      && Generating() && InBounds(mazeSize, w) && w !in walls
      && (At(maze, w).kind == Wall || (PathAt(maze, w) && Walled(maze, mazeSize, w)))
    }

    /** Lines 77-84 (along x) and 93-101 (along y): the conversion itself. */
    method Convert(w: Coord, alongX: bool, offset: int) returns (offsetAfter: int)
      requires Popped(w) && (offset == -1 || offset == 1)
      requires if alongX then 0 < w.0 < mazeSize.0 - 1 else 0 < w.1 < mazeSize.1 - 1
      requires Converts(maze, mazeSize, w, alongX, offset)
      modifies this
      ensures Popped(w) && |unchecked| + |walls| == old(|unchecked| + |walls|)
      ensures forall d :: PathAt(old(maze), d) ==> PathAt(maze, d)
      ensures start == old(start) && gameState == old(gameState)
      ensures Interior(mazeSize, w) && Converted(old(maze), old(walls), old(parent), old(rank), maze, walls, parent, rank, mazeSize, w, alongX, offset)
      ensures PushedAlong(old(pushed), old(walls), pushed, walls)
      ensures offsetAfter == 1
    {
      ghost var m0, walls0, parent0, rank0 := maze, walls, parent, rank;
      var ahead := Across(w, alongX, offset);
      var behind := Across(w, alongX, -offset);
      assert Adjacent(w, ahead) && Adjacent(w, behind) && PathAt(maze, behind);
      assert Interior(mazeSize, behind);
      OrderInBounds(mazeSize, w, alongX);
      SetPath(w, behind);
      ghost var m1 := maze;
      offsetAfter := WallOff(w, alongX);
      WalledOff(maze, m1, mazeSize, w, alongX);
      assert walls == walls0 + Kept(m1, mazeSize, WallOffOrder(w, alongX));
      ConversionDone(m0, walls0, parent0, rank0, m1, maze, walls, parent, rank, mazeSize, w, alongX, offset);
    }

    /** One axis of the check of a popped wall (lines 68-84 along x, 87-101 along y):
        when `Converts`, `w` is converted and the rebound loop variable, `1`, is
        returned; otherwise nothing changes and `offset` is returned. */
    method ConsiderWall(w: Coord, alongX: bool, offset: int) returns (offsetAfter: int)
      requires Popped(w) && (offset == -1 || offset == 1)
      requires if alongX then 0 < w.0 < mazeSize.0 - 1 else 0 < w.1 < mazeSize.1 - 1
      modifies this
      ensures Popped(w) && |unchecked| + |walls| == old(|unchecked| + |walls|)
      ensures forall d :: PathAt(old(maze), d) ==> PathAt(maze, d)
      ensures start == old(start) && gameState == old(gameState)
      ensures old(Converts(maze, mazeSize, w, alongX, offset)) ==>
        Interior(mazeSize, w) && Converted(old(maze), old(walls), old(parent), old(rank), maze, walls, parent, rank, mazeSize, w, alongX, offset) && offsetAfter == 1
      ensures !old(Converts(maze, mazeSize, w, alongX, offset)) ==>
        maze == old(maze) && walls == old(walls) && parent == old(parent) && rank == old(rank) && offsetAfter == offset
      ensures PushedAlong(old(pushed), old(walls), pushed, walls)
    {
      PushedAlongNothing(pushed, walls);
      offsetAfter := offset;
      var ahead := Across(w, alongX, offset);
      var behind := Across(w, alongX, -offset);
      if maze[ahead.0][ahead.1].kind == Unchecked && maze[behind.0][behind.1].kind == Path {
        var neighboringPath := GetCellNeighbors(maze[w.0][w.1], maze, mazeSize, OfType(Path));
        if |neighboringPath| < 2 {
          offsetAfter := Convert(w, alongX, offset);
        }
      }
    }

    /** The outer `for offset in range(-1, 2, 2)` for the popped wall `w` (lines 67-101):
        both axes are checked for each offset, the check along y using the offset the
        check along x may have rebound. Once `w` converts it has no unchecked neighbour,
        so no later check fires: the outcome is that of the first check in `CheckOrder`
        that fires on the grid as it was. */
    method CheckWall(w: Coord)
      requires Popped(w)
      modifies this
      ensures Popped(w) && |unchecked| + |walls| == old(|unchecked| + |walls|)
      ensures forall d :: PathAt(old(maze), d) ==> PathAt(maze, d)
      ensures CheckedAs(old(maze), old(walls), old(parent), old(rank), maze, walls, parent, rank, mazeSize, w,
                        FirstFiring(old(maze), mazeSize, w, CheckOrder))
      ensures PushedAlong(old(pushed), old(walls), pushed, walls)
      ensures start == old(start) && gameState == old(gameState)
    {
      ghost var m0, walls0, parent0, rank0 := maze, walls, parent, rank;
      PushedAlongNothing(pushed, walls);
      OrderPrefixes();
      var k := 0;
      while k < 2
        invariant 0 <= k <= 2 && Popped(w) && |unchecked| + |walls| == old(|unchecked| + |walls|)
        invariant forall d :: PathAt(old(maze), d) ==> PathAt(maze, d)
        invariant CheckedAs(m0, walls0, parent0, rank0, maze, walls, parent, rank, mazeSize, w,
                            FirstFiring(m0, mazeSize, w, CheckOrder[..2 * k]))
        invariant PushedAlong(old(pushed), old(walls), pushed, walls)
        invariant start == old(start) && gameState == old(gameState)
      {
        ghost var pushed1, walls1 := pushed, walls;
        CheckPass(w, 2 * k - 1, m0, walls0, parent0, rank0, k);
        PushedAlongTrans(old(pushed), old(walls), pushed1, walls1, pushed, walls);
        k := k + 1;
      }
      assert CheckOrder[..2 * k] == CheckOrder;
    }

    /** One pass of the outer loop, for `offset` (lines 68-101): the check along x, then
        the check along y with the offset the first may have rebound. */
    method CheckPass(w: Coord, offset: int, ghost m0: seq<seq<Cell>>, ghost walls0: seq<Coord>,
                     ghost parent0: map<Coord, Coord>, ghost rank0: map<Coord, nat>, ghost k: nat)
      requires Popped(w) && Shaped(m0, mazeSize) && k < 2 && offset == 2 * k - 1
      requires forall k :: 0 <= k <= |CheckOrder| ==> UnitChecks(CheckOrder[..k])
      requires CheckedAs(m0, walls0, parent0, rank0, maze, walls, parent, rank, mazeSize, w,
                         FirstFiring(m0, mazeSize, w, CheckOrder[..2 * k]))
      modifies this
      ensures Popped(w) && |unchecked| + |walls| == old(|unchecked| + |walls|)
      ensures forall d :: PathAt(old(maze), d) ==> PathAt(maze, d)
      ensures CheckedAs(m0, walls0, parent0, rank0, maze, walls, parent, rank, mazeSize, w,
                        FirstFiring(m0, mazeSize, w, CheckOrder[..2 * (k + 1)]))
      ensures PushedAlong(old(pushed), old(walls), pushed, walls)
      ensures start == old(start) && gameState == old(gameState)
    {
      var rebound := GuardedCheck(w, true, offset, m0, walls0, parent0, rank0, 2 * k);
      ghost var pushed1, walls1 := pushed, walls;
      rebound := GuardedCheck(w, false, rebound, m0, walls0, parent0, rank0, 2 * k + 1);
      PushedAlongTrans(old(pushed), old(walls), pushed1, walls1, pushed, walls);
    }

    /** The range test of line 68 (along x) or 87 (along y) and, when it passes, the
        check along that axis: the `j`-th check of `CheckOrder` when none before it fired
        on the grid `m0` checking began with, and no change after one did. */
    method GuardedCheck(w: Coord, alongX: bool, offset: int, ghost m0: seq<seq<Cell>>, ghost walls0: seq<Coord>,
                        ghost parent0: map<Coord, Coord>, ghost rank0: map<Coord, nat>, ghost j: nat) returns (offsetAfter: int)
      requires Popped(w) && Shaped(m0, mazeSize) && j < |CheckOrder| && CheckOrder[j].0 == alongX
      requires offset == -1 || offset == 1
      requires UnitChecks(CheckOrder[..j]) && UnitChecks(CheckOrder[..j + 1])
      requires CheckedAs(m0, walls0, parent0, rank0, maze, walls, parent, rank, mazeSize, w, FirstFiring(m0, mazeSize, w, CheckOrder[..j]))
      requires FirstFiring(m0, mazeSize, w, CheckOrder[..j]).None? ==> offset == CheckOrder[j].1
      modifies this
      ensures Popped(w) && |unchecked| + |walls| == old(|unchecked| + |walls|)
      ensures forall d :: PathAt(old(maze), d) ==> PathAt(maze, d)
      ensures CheckedAs(m0, walls0, parent0, rank0, maze, walls, parent, rank, mazeSize, w, FirstFiring(m0, mazeSize, w, CheckOrder[..j + 1]))
      ensures FirstFiring(m0, mazeSize, w, CheckOrder[..j + 1]).None? ==> offsetAfter == offset
      ensures offsetAfter == -1 || offsetAfter == 1
      ensures PushedAlong(old(pushed), old(walls), pushed, walls)
      ensures start == old(start) && gameState == old(gameState)
    {
      CheckStep(m0, walls0, parent0, rank0, maze, walls, parent, rank, mazeSize, w, alongX, offset, j);
      offsetAfter := offset;
      PushedAlongNothing(pushed, walls);
      if if alongX then 0 < w.0 < mazeSize.0 - 1 else 0 < w.1 < mazeSize.1 - 1 {
        offsetAfter := ConsiderWall(w, alongX, offset);
      }
    }

    /** One iteration of the main loop (lines 63-101): a random entry is popped off the
        frontier and checked, with the outcome `PoppedAndChecked` describes. Paths stay
        paths, and the frontier plus the unchecked cells shrink, which is why the loop ends. */
    method PopWall()
      requires Generating() && walls != []
      modifies this
      ensures Generating() && |unchecked| + |walls| == old(|unchecked| + |walls|) - 1
      ensures forall d :: PathAt(old(maze), d) ==> PathAt(maze, d)
      ensures exists i :: 0 <= i < |old(walls)| && PoppedAndChecked(old(maze), old(walls), old(pushed), old(parent), old(rank),
                                                                     maze, walls, pushed, parent, rank, mazeSize, i)
      ensures old(pushed) <= pushed
      ensures start == old(start) && gameState == old(gameState)
    {
      var i :| 0 <= i < |walls|;
      var randWall := walls[i];
      PopCarving(maze, mazeSize, unchecked, walls, pushed, start, parent, rank, i);
      walls := walls[..i] + walls[i + 1..];
      CheckWall(randWall);
      PoppedOutcome(old(maze), old(walls), old(pushed), old(parent), old(rank), maze, walls, pushed, parent, rank, mazeSize, i);
    }

    /** Lines 52-60: the starting cell `s` becomes a path and its four neighbours become
        walls, pushed in the order `(x-1, y)`, `(x, y-1)`, `(x+1, y)`, `(x, y+1)`. The
        seeding loop is the walling-off loop without its unchecked test; on a fresh grid
        every neighbour of `s` is unchecked, so `WallOff` does exactly the same. */
    method Seed(s: Coord)
      requires Shaped(maze, mazeSize) && forall c :: InBounds(mazeSize, c) ==> At(maze, c) == Cell(c, Unchecked)
      requires walls == [] && Interior(mazeSize, s)
      modifies this
      ensures Generating() && start == s && walls == WallOffOrder(s, true) && pushed == walls
      ensures forall d :: InBounds(mazeSize, d) ==>
        At(maze, d) == if d == s then Cell(s, Path) else if Adjacent(s, d) then Cell(d, Wall) else Cell(d, Unchecked)
      ensures gameState == old(gameState)
    {
      ghost var m0 := maze;
      SeedStart(s);
      SeedFrontier(m0, mazeSize, s);
      ghost var pushed0, walls0 := pushed, walls;
      var _ := WallOff(s, true);
      PushedFromNothing(pushed0, walls0, pushed, walls);
      SeedGrid(maze, m0, mazeSize, s);
    }

    /** Line 53: the starting cell becomes a path, the root of the tree. */
    method SeedStart(s: Coord)
      requires Shaped(maze, mazeSize) && forall c :: InBounds(mazeSize, c) ==> At(maze, c) == Cell(c, Unchecked)
      requires walls == [] && Interior(mazeSize, s)
      modifies this
      ensures Generating() && start == s && PathAt(maze, s) && s !in walls
      ensures maze == SetKind(old(maze), mazeSize, s, Path) && walls == [] && pushed == [] && gameState == old(gameState)
    {
      ghost var u := StartCarving(maze, mazeSize, s);
      maze := SetKind(maze, mazeSize, s, Path);
      unchecked, pushed, start, parent, rank := u, [], s, map[], map[s := 0];
    }

    /** Lines 104-107: every cell still unchecked becomes a wall. (The source sets the
        `type` of the existing cell; the model puts a cell with the same position and the
        new type in its place.) */
    method FillUnchecked()
      requires Consistent(maze, mazeSize)
      modifies this
      ensures Consistent(maze, mazeSize)
      ensures forall c :: InBounds(mazeSize, c) ==>
        At(maze, c) == if At(old(maze), c).kind == Unchecked then Cell(c, Wall) else At(old(maze), c)
      ensures forall c :: PathAt(maze, c) <==> PathAt(old(maze), c)
      ensures walls == old(walls) && gameState == old(gameState)
      ensures unchecked == old(unchecked) && pushed == old(pushed)
      ensures start == old(start) && parent == old(parent) && rank == old(rank)
    {
      ghost var m0 := maze;
      // As in the source, `y` runs over the first index and `x` over the second.
      var y := 0;
      while y < mazeSize.0
        invariant 0 <= y <= mazeSize.0 && Shaped(maze, mazeSize)
        invariant forall c :: InBounds(mazeSize, c) ==>
          At(maze, c) == if c.0 < y && At(m0, c).kind == Unchecked then Cell(c, Wall) else At(m0, c)
        invariant walls == old(walls) && gameState == old(gameState)
        invariant unchecked == old(unchecked) && pushed == old(pushed)
        invariant start == old(start) && parent == old(parent) && rank == old(rank)
      {
        var x := 0;
        while x < mazeSize.1
          invariant 0 <= x <= mazeSize.1 && Shaped(maze, mazeSize)
          invariant forall c :: InBounds(mazeSize, c) ==>
            At(maze, c) == if (c.0 < y || (c.0 == y && c.1 < x)) && At(m0, c).kind == Unchecked then Cell(c, Wall) else At(m0, c)
          invariant walls == old(walls) && gameState == old(gameState)
          invariant unchecked == old(unchecked) && pushed == old(pushed)
          invariant start == old(start) && parent == old(parent) && rank == old(rank)
        {
          if maze[y][x].kind == Unchecked {
            maze := maze[y := maze[y][x := Cell(maze[y][x].coord, Wall)]];
          }
          x := x + 1;
        }
        y := y + 1;
      }
      forall c ensures PathAt(maze, c) <==> PathAt(m0, c) {
        if PathAt(maze, c) || PathAt(m0, c) {
          assert InBounds(mazeSize, c);
        }
      }
    }

    /** `generate_maze` on the grid the constructor built. A maze side below 3 leaves no
        room for a starting cell (`random.randint(1, n - 2)` raises `ValueError`): the
        result is `false` and nothing changes. Otherwise the result is a maze whose
        cells are all walls or paths, whose border is all wall, and whose paths form a
        tree containing the starting cell; every position was pushed onto the frontier at
        most once. The random choices are `:|` choices within the same ranges. */
    method GenerateMaze() returns (ok: bool)
      requires Shaped(maze, mazeSize) && forall c :: InBounds(mazeSize, c) ==> At(maze, c) == Cell(c, Unchecked)
      requires walls == []
      modifies this
      ensures ok <==> mazeSize.0 >= 3 && mazeSize.1 >= 3
      ensures !ok ==> maze == old(maze) && walls == old(walls)
      ensures ok ==> Consistent(maze, mazeSize) && walls == []
      ensures ok ==> Interior(mazeSize, start) && PathAt(maze, start)
      ensures ok ==> forall c :: InBounds(mazeSize, c) ==> At(maze, c).kind == Wall || At(maze, c).kind == Path
      ensures ok ==> forall c :: InBounds(mazeSize, c) && !Interior(mazeSize, c) ==> At(maze, c).kind == Wall
      ensures ok ==> RootedTree(maze, start, parent, rank) && Distinct(pushed)
      ensures ok ==> WallOffOrder(start, true) <= pushed
      ensures gameState == old(gameState)
    {
      if mazeSize.0 < 3 || mazeSize.1 < 3 {
        return false;
      }
      var sx :| 1 <= sx <= mazeSize.0 - 2;
      var sy :| 1 <= sy <= mazeSize.1 - 2;
      Seed((sx, sy));
      while walls != []
        invariant Generating() && PathAt(maze, start) && gameState == old(gameState)
        invariant WallOffOrder(start, true) <= pushed
        decreases |unchecked| + |walls|
      {
        PopWall();
      }
      ghost var m1 := maze;
      FillUnchecked();
      SamePathsSameTree(m1, maze, start, parent, rank);
      return true;
    }
  }
}
