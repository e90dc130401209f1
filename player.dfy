/**
 * `Player` (GameFiles/Player.py): the player's lives and position, the arrow keys
 * it reacts to, its moves through the grid of a `MazeGame`, and what it runs into.
 *
 * Moves look up the target cell with Python's list indexing: a negative index
 * counts from the end of the list and an index past the end raises `IndexError`.
 */
module Players {
  import opened Wrappers
  import opened MazeCells
  import opened MazeTree
  import opened MazeGen

  /** The direction strings `'up'`, `'down'`, `'left'` and `'right'`. */
  datatype Direction = Up | Down | Left | Right

  /** The key name (`event.keysym`) of the arrow key for each direction. */
  function Keysym(d: Direction): string
  {
    match d
    case Up => "Up"
    case Down => "Down"
    case Left => "Left"
    case Right => "Right"
  }

  /** `get_input`: the direction of an arrow key, `None` for any other key. */
  function GetInput(keysym: string): (direction: Option<Direction>)
    ensures direction.Some? ==> Keysym(direction.value) == keysym
    ensures direction.None? ==> forall d: Direction :: Keysym(d) != keysym
  {
    if keysym == "Up" then Some(Up)
    else if keysym == "Down" then Some(Down)
    else if keysym == "Left" then Some(Left)
    else if keysym == "Right" then Some(Right)
    else None
  }

  /** The position `move_player` aims at: one row up or down, one column left or right,
      or the current position for no direction. */
  function Target(position: Coord, direction: Option<Direction>): (r: Coord)
    ensures direction.Some? ==> Adjacent(position, r)
    ensures direction.None? ==> r == position
  {
    var (x, y) := position;
    match direction
    case Some(Up) => (x - 1, y)
    case Some(Down) => (x + 1, y)
    case Some(Left) => (x, y - 1)
    case Some(Right) => (x, y + 1)
    case None => position
  }

  /** Python's `xs[i]` on a list of length `n`: the index used, or `None` when it
      raises `IndexError`. */
  function PyIndex(n: nat, i: int): (r: Option<nat>)
    ensures r.Some? <==> -(n as int) <= i < n
    ensures r.Some? ==> r.value < n && (r.value == i || r.value == n + i)
  {
    if 0 <= i < n then Some(i)
    else if -(n as int) <= i < 0 then Some(n + i)
    else None
  }

  /** `maze[p[0]][p[1]]` with Python's indexing. */
  function CellAt(maze: seq<seq<Cell>>, p: Coord): (r: Result<Cell>)
    ensures r.Err? ==> r.error == IndexError
    ensures 0 <= p.0 < |maze| && 0 <= p.1 < |maze[p.0]| ==> r == Ok(maze[p.0][p.1])
  {
    match PyIndex(|maze|, p.0)
    case None => Err(IndexError)
    case Some(x) =>
      match PyIndex(|maze[x]|, p.1)
      case None => Err(IndexError)
      case Some(y) => Ok(maze[x][y])
  }

  /** The player may stand at `p`: the lookup succeeds and finds no wall. */
  predicate Open(maze: seq<seq<Cell>>, p: Coord)
  {
    CellAt(maze, p).Ok? && TypeName(CellAt(maze, p).value.kind) != "wall"
  }

  /** Where `move_player` leaves the player: at the target when it may stand there,
      otherwise where it was (also when the lookup raises). */
  function Step(maze: seq<seq<Cell>>, position: Coord, direction: Option<Direction>): (r: Coord)
    ensures r == position || (r == Target(position, direction) && Open(maze, r))
    ensures Open(maze, Target(position, direction)) ==> r == Target(position, direction)
  {
    var t := Target(position, direction);
    if Open(maze, t) then t else position
  }

  /** The player's position after a sequence of moves. */
  function Moves(maze: seq<seq<Cell>>, position: Coord, directions: seq<Option<Direction>>): Coord
    decreases |directions|
  {
    if |directions| == 0 then position
    else Moves(maze, Step(maze, position, directions[0]), directions[1..])
  }

  /** A player that may stand where it starts may stand where any sequence of moves
      leaves it. */
  lemma {:induction false} MovesStayOpen(maze: seq<seq<Cell>>, position: Coord, directions: seq<Option<Direction>>)
    requires Open(maze, position)
    ensures Open(maze, Moves(maze, position, directions))
    decreases |directions|
  {
    if |directions| > 0 {
      MovesStayOpen(maze, Step(maze, position, directions[0]), directions[1..]);
    }
  }

  /** On a finished maze (only walls and paths, wall all around the border) a player
      that starts on a path cell stays on path cells inside the grid, so Python's
      negative indexing and `IndexError` never come into play. */
  lemma {:induction false} MovesStayOnPath(maze: seq<seq<Cell>>, size: (nat, nat), position: Coord,
                                           directions: seq<Option<Direction>>)
    requires Shaped(maze, size)
    requires forall c :: InBounds(size, c) ==> At(maze, c).kind == Wall || At(maze, c).kind == Path
    requires forall c :: InBounds(size, c) && !Interior(size, c) ==> At(maze, c).kind == Wall
    requires PathAt(maze, position)
    ensures PathAt(maze, Moves(maze, position, directions))
    decreases |directions|
  {
    if |directions| > 0 {
      var t := Target(position, directions[0]);
      if InBounds(size, t) {
        assert CellAt(maze, t) == Ok(At(maze, t));
      } else {
        assert Interior(size, position);
      }
      MovesStayOnPath(maze, size, Step(maze, position, directions[0]), directions[1..]);
    }
  }

  /** The first element `check_collision` reports. */
  datatype Collision = Monster | Trap | Treasure

  /** `check_collision`'s answer for a player at `position`: monsters come first, then
      traps, then the treasure; the flag says whether there was a collision at all. */
  function Collides(position: Coord, monsters: seq<Coord>, traps: seq<Coord>, treasure: Option<Coord>)
    : (r: (Option<Collision>, bool))
    ensures r.1 <==> r.0.Some?
    ensures r.0 == Some(Monster) <==> position in monsters
    ensures r.0 == Some(Trap) <==> position !in monsters && position in traps
    ensures r.0 == Some(Treasure) <==> position !in monsters && position !in traps && treasure == Some(position)
  {
    if position in monsters then (Some(Monster), true)
    else if position in traps then (Some(Trap), true)
    else if treasure == Some(position) then (Some(Treasure), true)
    else (None, false)
  }

  class Player {
    /** `self.maze`: the game whose grid the player walks. */
    const maze: MazeGame
    var lives: int
    var position: Coord

    /** `Player(maze)`: three lives, at `init_player_pos()`, which is `(1, 1)`. */
    constructor(maze: MazeGame)
      ensures this.maze == maze && lives == 3 && position == (1, 1)
    {
      this.maze := maze;
      lives := 3;
      position := (1, 1);
    }

    /** `move_player`: the player moves to the target when the cell there is not a
        wall. A lookup that raises `IndexError` is returned as `Some(IndexError)`, the
        position unchanged. Lives are never touched. */
    method MovePlayer(direction: Option<Direction>) returns (raised: Option<PyError>)
      modifies this
      ensures position == Step(maze.maze, old(position), direction)
      ensures raised.Some? <==> CellAt(maze.maze, Target(old(position), direction)).Err?
      ensures raised.Some? ==> raised.value == IndexError
      ensures lives == old(lives)
    {
      var (x, y) := position;
      var newPosition: Coord;
      if direction == Some(Up) {
        newPosition := (x - 1, y);
      } else if direction == Some(Down) {
        newPosition := (x + 1, y);
      } else if direction == Some(Left) {
        newPosition := (x, y - 1);
      } else if direction == Some(Right) {
        newPosition := (x, y + 1);
      } else {
        newPosition := position;
      }
      var cell := CellAt(maze.maze, newPosition);
      if cell.Err? {
        return Some(cell.error);
      }
      if TypeName(cell.value.kind) != "wall" {
        position := newPosition;
      }
      return None;
    }

    /** `check_collision`: the loops over the monsters and the traps return at the
        first match. Monsters are given by their positions. */
    method CheckCollision(monsters: seq<Coord>, traps: seq<Coord>, treasure: Option<Coord>)
      returns (hit: Option<Collision>, collision: bool)
      ensures (hit, collision) == Collides(position, monsters, traps, treasure)
    {
      var i := 0;
      while i < |monsters|
        invariant 0 <= i <= |monsters| && position !in monsters[..i]
      {
        if position == monsters[i] {
          return Some(Monster), true;
        }
        i := i + 1;
      }
      assert monsters[..i] == monsters;
      var j := 0;
      while j < |traps|
        invariant 0 <= j <= |traps| && position !in traps[..j]
      {
        if position == traps[j] {
          return Some(Trap), true;
        }
        j := j + 1;
      }
      assert traps[..j] == traps;
      if treasure == Some(position) {
        return Some(Treasure), true;
      }
      return None, false;
    }

    /** `lose_life`: one life fewer; the result says whether the game is over, which
        the source announces once no life is left. */
    method LoseLife() returns (gameOver: bool)
      modifies this
      ensures lives == old(lives) - 1 && position == old(position)
      ensures gameOver <==> lives <= 0
    {
      lives := lives - 1;
      gameOver := lives <= 0;
    }
  }
}
