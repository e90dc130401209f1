/**
 * `MazeCell` (GameFiles/MazeGame.py): a cell of the maze grid with its coordinate
 * and its type, its two string forms, and the cardinal-neighbour query the
 * generator and the renderer use.
 */
module MazeCells {
  import opened PyStr

  /** A grid coordinate `(x, y)`; the grid is indexed `maze[x][y]`. */
  type Coord = (int, int)

  /** The `type` string of a cell. The generator only writes the first three;
      `str_to_class` accepts any string, which `Named` carries. `KindOf` never puts
      one of the three generator names in `Named` (see `Canonical`). */
  datatype CellType = Unchecked | Wall | Path | Named(name: string)

  /** `MazeCell(x, y, type)`: `coord` is `(x, y)`. */
  datatype Cell = Cell(coord: Coord, kind: CellType)

  /** The Python string stored in a cell's `type` attribute. */
  function TypeName(k: CellType): string
  {
    match k
    case Unchecked => "unchecked"
    case Wall => "wall"
    case Path => "path"
    case Named(n) => n
  }

  /** A type value whose name is not one of the three generator names
      (those have their own constructors). */
  predicate Canonical(k: CellType)
  {
    k.Named? ==> k.name != "unchecked" && k.name != "wall" && k.name != "path"
  }

  /** The type a cell gets from the string in its `type` attribute. */
  function KindOf(name: string): (k: CellType)
    ensures TypeName(k) == name
    ensures Canonical(k)
  {
    if name == "unchecked" then Unchecked
    else if name == "wall" then Wall
    else if name == "path" then Path
    else Named(name)
  }

  /** Names and types are in one-to-one correspondence on canonical types. */
  lemma KindOfTypeName(k: CellType)
    ensures KindOf(TypeName(k)) == k <==> Canonical(k)
  {
  }

  /** `MazeCell.__str__`: one letter per type name. */
  function Str(c: Cell): (r: string)
    ensures |r| == 1
    ensures r == "w" <==> TypeName(c.kind) == "wall"
    ensures r == "p" <==> TypeName(c.kind) == "path"
    ensures r == "u" <==> TypeName(c.kind) != "wall" && TypeName(c.kind) != "path"
    ensures Canonical(c.kind) ==> (r == "w" <==> c.kind == Wall) && (r == "p" <==> c.kind == Path)
  {
    if TypeName(c.kind) == "wall" then "w"
    else if TypeName(c.kind) == "path" then "p"
    else "u"
  }

  /** `MazeCell.__repr__`: `<x=X, y=Y, type=T>`. */
  function Repr(c: Cell): (r: string)
    ensures |r| > 0 && r[0] == '<' && r[|r| - 1] == '>'
  {
    "<x=" + IntToString(c.coord.0) + ", y=" + IntToString(c.coord.1) + ", type=" + TypeName(c.kind) + ">"
  }

  // ---------------------------------------------------------------- the grid

  /** `maze` has `size.0` rows of `size.1` cells. */
  predicate Shaped(maze: seq<seq<Cell>>, size: (nat, nat))
  {
    |maze| == size.0 && forall x :: 0 <= x < |maze| ==> |maze[x]| == size.1
  }

  predicate InBounds(size: (nat, nat), c: Coord)
  {
    0 <= c.0 < size.0 && 0 <= c.1 < size.1
  }

  /** Not on the border: `0 < x < size.0 - 1` and `0 < y < size.1 - 1`. */
  predicate Interior(size: (nat, nat), c: Coord)
  {
    0 < c.0 < size.0 - 1 && 0 < c.1 < size.1 - 1
  }

  /** `maze[x][y]`. */
  function At(maze: seq<seq<Cell>>, c: Coord): Cell
    requires 0 <= c.0 < |maze| && 0 <= c.1 < |maze[c.0]|
  {
    maze[c.0][c.1]
  }

  /** Cardinal neighbours. */
  predicate Adjacent(a: Coord, b: Coord)
  {
    (a.0 == b.0 && (a.1 - b.1 == 1 || b.1 - a.1 == 1)) ||
    (a.1 == b.1 && (a.0 - b.0 == 1 || b.0 - a.0 == 1))
  }

  /** The `searched_type` argument: `"any"` or one type. */
  datatype Query = Any | OfType(kind: CellType)

  predicate Matches(cell: Cell, q: Query)
  {
    q.Any? || cell.kind == q.kind
  }

  /** On canonical types, which are the only ones the game and the parsers build,
      comparing types is comparing the `type` strings, as the source does. */
  lemma MatchesByName(cell: Cell, k: CellType)
    requires Canonical(cell.kind) && Canonical(k)
    ensures Matches(cell, OfType(k)) <==> TypeName(cell.kind) == TypeName(k)
  {
    KindOfTypeName(cell.kind);
    KindOfTypeName(k);
  }

  /** Where a cardinal neighbour of `c` comes in the order `get_cell_neighbors` looks:
      `(x, y-1)`, `(x-1, y)`, `(x, y+1)`, `(x+1, y)`. */
  function DirOf(c: Coord, n: Coord): nat
  {
    if n == (c.0, c.1 - 1) then 0
    else if n == (c.0 - 1, c.1) then 1
    else if n == (c.0, c.1 + 1) then 2
    else 3
  }

  /** The `d`-th position in that order. */
  function Toward(c: Coord, d: nat): (n: Coord)
    requires d < 4
    ensures Adjacent(c, n) && DirOf(c, n) == d
  {
    if d == 0 then (c.0, c.1 - 1)
    else if d == 1 then (c.0 - 1, c.1)
    else if d == 2 then (c.0, c.1 + 1)
    else (c.0 + 1, c.1)
  }

  /** A cardinal neighbour is determined by its place in the order. */
  lemma DirDetermines(c: Coord, d: nat)
    requires d < 4
    ensures forall n :: Adjacent(c, n) && DirOf(c, n) == d ==> n == Toward(c, d)
  {
  }

  /** The neighbour in direction `d`, when it exists and matches. */
  function Visit(maze: seq<seq<Cell>>, size: (nat, nat), c: Coord, q: Query, d: nat): seq<Coord>
    requires Shaped(maze, size) && d < 4
  {
    var n := Toward(c, d);
    if InBounds(size, n) && Matches(At(maze, n), q) then [n] else []
  }

  /** The neighbours `get_cell_neighbors` has collected after looking in the first `k` directions. */
  function Collected(maze: seq<seq<Cell>>, size: (nat, nat), c: Coord, q: Query, k: nat): seq<Coord>
    requires Shaped(maze, size) && k <= 4
  {
    if k == 0 then [] else Collected(maze, size, c, q, k - 1) + Visit(maze, size, c, q, k - 1)
  }

  /** After `k` directions, the collected positions are exactly the in-bounds matching
      neighbours among the first `k` directions, in order. */
  lemma {:induction false} CollectedExactly(maze: seq<seq<Cell>>, size: (nat, nat), c: Coord, q: Query, k: nat)
    requires Shaped(maze, size) && k <= 4
    ensures var r := Collected(maze, size, c, q, k);
      && |r| <= k
      && (forall i :: 0 <= i < |r| ==>
            InBounds(size, r[i]) && Adjacent(c, r[i]) && DirOf(c, r[i]) < k && Matches(At(maze, r[i]), q))
      && (forall n :: InBounds(size, n) && Adjacent(c, n) && DirOf(c, n) < k && Matches(At(maze, n), q) ==>
            n in r)
      && (forall i, j :: 0 <= i < j < |r| ==> DirOf(c, r[i]) < DirOf(c, r[j]))
  {
    if k > 0 {
      CollectedExactly(maze, size, c, q, k - 1);
      DirDetermines(c, k - 1);
    }
  }

  /** The positions of the cells `cell.get_cell_neighbors(maze, maze_size, q)` returns, for the
      cell at `c`: exactly the in-bounds cardinal neighbours matching `q`, in the fixed order. */
  function NeighborCoords(maze: seq<seq<Cell>>, size: (nat, nat), c: Coord, q: Query): (r: seq<Coord>)
    requires Shaped(maze, size) && InBounds(size, c)
    ensures |r| <= 4
    ensures forall i :: 0 <= i < |r| ==> InBounds(size, r[i]) && Adjacent(c, r[i]) && Matches(At(maze, r[i]), q)
    ensures forall n :: InBounds(size, n) && Adjacent(c, n) && Matches(At(maze, n), q) ==> n in r
    ensures forall i, j :: 0 <= i < j < |r| ==> DirOf(c, r[i]) < DirOf(c, r[j])
  {
    CollectedExactly(maze, size, c, q, 4);
    Collected(maze, size, c, q, 4)
  }

  /** The cells at a list of positions, in order. */
  function CellsAt(maze: seq<seq<Cell>>, cs: seq<Coord>): (r: seq<Cell>)
    requires forall i :: 0 <= i < |cs| ==> 0 <= cs[i].0 < |maze| && 0 <= cs[i].1 < |maze[cs[i].0]|
    ensures |r| == |cs| && forall i :: 0 <= i < |cs| ==> r[i] == At(maze, cs[i])
  {
    seq(|cs|, i requires 0 <= i < |cs| => At(maze, cs[i]))
  }

  /** The cells `get_cell_neighbors` returns: the cells at `NeighborCoords`. */
  function Neighbors(maze: seq<seq<Cell>>, size: (nat, nat), c: Coord, q: Query): seq<Cell>
    requires Shaped(maze, size) && InBounds(size, c)
  {
    CellsAt(maze, NeighborCoords(maze, size, c, q))
  }

  /** The cells `get_cell_neighbors` has collected after looking in the first `k` directions. */
  function CollectedCells(maze: seq<seq<Cell>>, size: (nat, nat), c: Coord, q: Query, k: nat): seq<Cell>
    requires Shaped(maze, size) && k <= 4
  {
    if k == 0 then []
    else
      var n := Toward(c, k - 1);
      CollectedCells(maze, size, c, q, k - 1) + (if InBounds(size, n) && Matches(At(maze, n), q) then [At(maze, n)] else [])
  }

  /** Collecting cells is collecting positions and then taking their cells. */
  lemma {:induction false} CollectedCellsAt(maze: seq<seq<Cell>>, size: (nat, nat), c: Coord, q: Query, k: nat)
    requires Shaped(maze, size) && k <= 4
    ensures var cs := Collected(maze, size, c, q, k);
      forall i :: 0 <= i < |cs| ==> 0 <= cs[i].0 < |maze| && 0 <= cs[i].1 < |maze[cs[i].0]|
    ensures CollectedCells(maze, size, c, q, k) == CellsAt(maze, Collected(maze, size, c, q, k))
  {
    if k > 0 {
      CollectedCellsAt(maze, size, c, q, k - 1);
      var n := Toward(c, k - 1);
      if InBounds(size, n) && Matches(At(maze, n), q) {
        CellsAtAppend(maze, Collected(maze, size, c, q, k - 1), n);
      } else {
        assert Collected(maze, size, c, q, k) == Collected(maze, size, c, q, k - 1);
      }
    }
  }

  /** `MazeCell.get_cell_neighbors(maze, maze_size, searched_type)` called on `cell`. */
  method GetCellNeighbors(cell: Cell, maze: seq<seq<Cell>>, size: (nat, nat), q: Query)
    returns (list: seq<Cell>)
    requires Shaped(maze, size) && InBounds(size, cell.coord)
    ensures list == Neighbors(maze, size, cell.coord, q)
  {
    var c := cell.coord;
    list := [];
    var offset := -1;
    while offset < 2
      invariant offset == -1 || offset == 1 || offset == 3
      invariant list == CollectedCells(maze, size, c, q, offset + 1)
    {
      assert Toward(c, offset + 1) == (c.0, c.1 + offset);
      assert Toward(c, offset + 2) == (c.0 + offset, c.1);
      if 0 <= c.1 + offset < size.1 && Matches(maze[c.0][c.1 + offset], q) {
        list := list + [maze[c.0][c.1 + offset]];
      }
      assert list == CollectedCells(maze, size, c, q, offset + 2);
      if 0 <= c.0 + offset < size.0 && Matches(maze[c.0 + offset][c.1], q) {
        list := list + [maze[c.0 + offset][c.1]];
      }
      offset := offset + 2;
    }
    CollectedCellsAt(maze, size, c, q, 4);
  }

  lemma CellsAtAppend(maze: seq<seq<Cell>>, cs: seq<Coord>, n: Coord)
    requires forall i :: 0 <= i < |cs| ==> 0 <= cs[i].0 < |maze| && 0 <= cs[i].1 < |maze[cs[i].0]|
    requires 0 <= n.0 < |maze| && 0 <= n.1 < |maze[n.0]|
    ensures CellsAt(maze, cs + [n]) == CellsAt(maze, cs) + [At(maze, n)]
  {
  }

  /** A wall with fewer than two path neighbours, one of them `p`, has `p` as its only path neighbour. */
  lemma FewPathNeighbors(maze: seq<seq<Cell>>, size: (nat, nat), c: Coord, p: Coord)
    requires Shaped(maze, size) && InBounds(size, c)
    requires |Neighbors(maze, size, c, OfType(Path))| < 2
    requires InBounds(size, p) && Adjacent(c, p) && At(maze, p).kind == Path
    ensures forall n :: InBounds(size, n) && Adjacent(c, n) && At(maze, n).kind == Path ==> n == p
  {
    var r := NeighborCoords(maze, size, c, OfType(Path));
    assert p in r;
  }

  /** The cells of `cells` whose type is `k`, in order. */
  function OfKind(cells: seq<Cell>, k: CellType): (r: seq<Cell>)
    ensures |r| <= |cells|
  {
    if |cells| == 0 then []
    else OfKind(cells[..|cells| - 1], k) + (if cells[|cells| - 1].kind == k then [cells[|cells| - 1]] else [])
  }

  /** A typed query returns exactly the cells of the untyped query that have that type, in the same order. */
  lemma TypedNeighbors(maze: seq<seq<Cell>>, size: (nat, nat), c: Coord, k: CellType)
    requires Shaped(maze, size) && InBounds(size, c)
    ensures Neighbors(maze, size, c, OfType(k)) == OfKind(Neighbors(maze, size, c, Any), k)
  {
    CollectedCellsAt(maze, size, c, OfType(k), 4);
    CollectedCellsAt(maze, size, c, Any, 4);
    TypedCollected(maze, size, c, k, 4);
  }

  lemma {:induction false} TypedCollected(maze: seq<seq<Cell>>, size: (nat, nat), c: Coord, k: CellType, j: nat)
    requires Shaped(maze, size) && j <= 4
    ensures CollectedCells(maze, size, c, OfType(k), j) == OfKind(CollectedCells(maze, size, c, Any, j), k)
  {
    if j > 0 {
      TypedCollected(maze, size, c, k, j - 1);
      var n := Toward(c, j - 1);
      var before := CollectedCells(maze, size, c, Any, j - 1);
      if InBounds(size, n) {
        var all := before + [At(maze, n)];
        assert CollectedCells(maze, size, c, Any, j) == all;
        assert all[..|all| - 1] == before;
        assert OfKind(all, k) == OfKind(before, k) + (if At(maze, n).kind == k then [At(maze, n)] else []);
        assert CollectedCells(maze, size, c, OfType(k), j)
            == CollectedCells(maze, size, c, OfType(k), j - 1) + (if At(maze, n).kind == k then [At(maze, n)] else []);
      } else {
        assert CollectedCells(maze, size, c, Any, j) == before;
        assert CollectedCells(maze, size, c, OfType(k), j) == CollectedCells(maze, size, c, OfType(k), j - 1);
      }
    }
  }
}
