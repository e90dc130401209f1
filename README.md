# Maze game core in Dafny

This project models the core of a tile-based maze game written in Python:

- the grid of `MazeCell`s that `MazeGame` builds;
- the randomized Prim's-style generator `generate_maze`, which carves a tree of path cells out of a grid of unchecked cells;
- the cell neighbour query `get_cell_neighbors`;
- the string forms of a cell (`__str__`, `__repr__`);
- the save-string parsers `parse_position`, `str_to_class`, `parse_list` and `parse_dict`;
- the `Player` class: its lives, its moves through the grid, the arrow keys it reacts to, and what it collides with.

Modules, one file each:

| module | file | models |
|---|---|---|
| `Wrappers` | `wrappers.dfy` | `None`/value, and the Python exceptions the parsers raise (`ValueError`, `IndexError`) |
| `PyStr` | `pystr.dfy` | the Python string operations the parsers use: `strip`, `split`, `join`, `int()`, `str()` of an integer |
| `MazeCells` | `maze_cell.dfy` | `MazeCell`, its `__str__`/`__repr__`, and `get_cell_neighbors` (a loop, proved against a specification function) |
| `SaveParsing` | `save_parsing.dfy` | the four parsers and the `str()` forms they read back |
| `MazeTree` | `maze_tree.dfy` | what the generator builds: the path cells form a tree, so they are connected and hold no cycle |
| `MazeGen` | `maze_game.dfy` | class `MazeGame`: the constructor's nested loops and `generate_maze`, one method per loop of the source |
| `Players` | `player.dfy` | class `Player` and its pure classifiers |

How the source's behaviour is represented:

- The grid is a field `maze: seq<seq<Cell>>` that the methods reassign. The frontier `walls` is a `seq<Coord>` field; a pop at a random index and the appends are sequence updates.
- Random choices (`random.randint`) are `:|` choices within the same ranges.
- `generate_maze` reuses the name `offset` for two loops. The inner `for offset` (GameFiles/MazeGame.py:78 and :95) rebinds the outer loop's variable (GameFiles/MazeGame.py:67), so after a conversion along x, the check along y uses offset `1`. The model keeps this: `WallOff` returns the rebound value and `CheckPass` uses it. A converted wall has no unchecked neighbour, so no later check of it fires whatever the offset. The outcome of checking a popped wall is therefore that of the first check that fires on the grid as it was, in the order (x, -1), (y, -1), (x, 1), (y, 1) (`MazeGen.CheckOrder`).
- The generator carries ghost bookkeeping:
  - the set of unchecked cells;
  - every position ever pushed;
  - a parent and a rank for each path cell.

  From these it proves that the grid it leaves behind has the following properties:
  - only walls and paths;
  - a wall border;
  - path cells that form a tree rooted at the starting cell (`MazeTree.RootedTree`);
  - a frontier that never held a position twice.

## Model

| member | source | states |
|---|---|---|
| `MazeCells.KindOf` | GameFiles/MazeGame.py:295-304 | the type a cell gets from a `type` string prints back as that same string, and is the unique canonical type with that name |
| `MazeCells.KindOfTypeName` | GameFiles/MazeGame.py:295-304 | type names and canonical types are in one-to-one correspondence |
| `MazeCells.Str` | GameFiles/MazeGame.py:306-313 | `__str__` is one character: `'w'` exactly when the type string is `'wall'`, `'p'` exactly when it is `'path'`, `'u'` for every other type string |
| `MazeCells.Repr` | GameFiles/MazeGame.py:315-320 | `__repr__` is `<x=X, y=Y, type=T>`, enclosed in `<` and `>`; `SaveParsing.StrToClassRepr` proves that `str_to_class` reads it back as the cell |
| `MazeCells.NeighborCoords` | GameFiles/MazeGame.py:322-347 | the neighbours are exactly the in-bounds cardinal neighbours that match the searched type, at most four, in the fixed order `(x, y-1)`, `(x-1, y)`, `(x, y+1)`, `(x+1, y)` |
| `MazeCells.CollectedExactly` | GameFiles/MazeGame.py:333-346 | after the loop has looked in its first `k` directions, the list holds exactly the matching in-bounds neighbours among those directions, in order |
| `MazeCells.GetCellNeighbors` | GameFiles/MazeGame.py:322-347 | the loop over `offset` returns exactly the cells at `NeighborCoords`, in order |
| `MazeCells.TypedNeighbors` | GameFiles/MazeGame.py:333-346 | asking for one type gives the `"any"` neighbours filtered to that type, order kept |
| `MazeCells.FewPathNeighbors` | GameFiles/MazeGame.py:71-74 | a cell with fewer than two path neighbours, one of which is `p`, has no path neighbour other than `p` |
| `SaveParsing.ParsePosition` | GameFiles/MazeGame.py:148-153 | every failure is a `ValueError`; the result is `None` exactly for the string `'None'` |
| `SaveParsing.ParsePositionRepr` | GameFiles/MazeGame.py:148-153 | `parse_position` reads back `str()` of any position or `None` |
| `SaveParsing.StrToClass` | GameFiles/MazeGame.py:155-173 | a cell it builds has the canonical type for its type string |
| `SaveParsing.StrToClassNone` | GameFiles/MazeGame.py:166-173 | the result is `None` exactly when the string, stripped of `<` and `>`, is empty or `'None'` |
| `SaveParsing.StrToClassRepr` | GameFiles/MazeGame.py:155-173 | `str_to_class(repr(cell))` is the cell again, for any position and any type name without `=`, `<`, `>` or `[` |
| `SaveParsing.ParseList` | GameFiles/MazeGame.py:176-199 | the nested loops return `None` for `'None'`, `[]` for `'[]'`, otherwise the rows split on `'], ['` with each cell converted by `str_to_class`; the first failing cell's exception propagates |
| `SaveParsing.ParseRow` | GameFiles/MazeGame.py:194-196 | the inner loop returns the row's cells, split on `', <'` after stripping brackets, each converted by `str_to_class`, or the first exception a cell raises |
| `SaveParsing.ParseListRepr` | GameFiles/MazeGame.py:176-199 | `parse_list` reads back `str()` of any grid whose rows are non-empty and whose type names are safe |
| `SaveParsing.EntryFromPiece` | GameFiles/MazeGame.py:216-232 | each piece the dictionary's `str()` is split into, the first still carrying its `(`, reads back as the entry whose `str()` it is: key `(a, b)`, value `[flag, n]` |
| `SaveParsing.ParseDict` | GameFiles/MazeGame.py:201-234 | the loop returns `None` for `'None'`, `{}` for `'{}'`, otherwise the dictionary that assigning the entries in order builds; the first malformed entry's exception propagates |
| `SaveParsing.MapOfKeys` | GameFiles/MazeGame.py:232 | the dictionary's keys are exactly the entries' keys |
| `SaveParsing.MapOfLast` | GameFiles/MazeGame.py:232 | a key maps to the value of its last entry |
| `SaveParsing.ParseDictRepr` | GameFiles/MazeGame.py:201-234 | `parse_dict` reads back `str()` of any traps dictionary |
| `MazeTree.PathToRoot` | GameFiles/MazeGame.py:63-101 | from every path cell a walk through path cells leads to the starting cell |
| `MazeTree.Connecting` | GameFiles/MazeGame.py:63-101 | any two path cells are joined by a walk through path cells |
| `MazeTree.NoCycle` | GameFiles/MazeGame.py:63-101 | no walk through path cells closes a cycle |
| `MazeTree.SamePathsSameTree` | GameFiles/MazeGame.py:104-107 | rewriting non-path cells keeps the tree |
| `MazeGen.MazeGame.constructor` | GameFiles/MazeGame.py:17-46 | the initial game state (3 lives, score 0, no positions, no traps), an empty frontier, and a grid of `size.0` rows of `size.1` unchecked cells, each holding its own position |
| `MazeGen.SetKind` | GameFiles/MazeGame.py:53 | assigning a new cell changes that one position and no other, and makes it a path exactly when the new type is path |
| `MazeGen.WallOffOrder` | GameFiles/MazeGame.py:79-84 | the walling-off loop visits four distinct positions, exactly the cardinal neighbours |
| `MazeGen.MarkWallCarving` | GameFiles/MazeGame.py:80-84 | turning an unchecked cell into a wall and pushing it keeps the generator invariant |
| `MazeGen.SetPathCarving` | GameFiles/MazeGame.py:71-77 | converting a wall with fewer than two path neighbours, next to path `p`, keeps the invariant with `p` as its parent |
| `MazeGen.TreeGrows` | GameFiles/MazeGame.py:74-77 | adding a cell whose only path neighbour is `p` to a tree, with parent `p`, gives a tree |
| `MazeGen.PopCarving` | GameFiles/MazeGame.py:65 | popping an entry keeps the invariant and the entry is no longer in the frontier |
| `MazeGen.StartCarving` | GameFiles/MazeGame.py:52-53 | a fresh grid with the starting cell made a path satisfies the invariant, with the start as root |
| `MazeGen.SeedFrontier` | GameFiles/MazeGame.py:56-60 | on a fresh grid all four neighbours of the start are pushed, in the order `(x-1, y)`, `(x, y-1)`, `(x+1, y)`, `(x, y+1)` |
| `MazeGen.SeedGrid` | GameFiles/MazeGame.py:56-60 | after seeding: the start is a path, its neighbours walls, every other cell unchecked |
| `MazeGen.KeptAll` | GameFiles/MazeGame.py:80-84 | when every visited position is unchecked, every one of them is pushed |
| `MazeGen.WalledOff` | GameFiles/MazeGame.py:79-84 | after the walling-off loop no neighbour of the new path cell is unchecked |
| `MazeGen.ConversionDone` | GameFiles/MazeGame.py:77-84 | the cell assignment followed by the walling-off loop is one conversion, and path cells stay path cells |
| `MazeGen.MazeGame.MarkWall` | GameFiles/MazeGame.py:80-84 | one position becomes a wall and is appended to the frontier; the invariant holds |
| `MazeGen.MazeGame.SetPath` | GameFiles/MazeGame.py:77 | the wall becomes a path; nothing else in the grid changes; the frontier is unchanged |
| `MazeGen.MazeGame.MarkIfUnchecked` | GameFiles/MazeGame.py:80-84 | one check of the walling-off loop: the position becomes a wall and is appended, and recorded as pushed, exactly when it was unchecked |
| `MazeGen.MazeGame.WallOffPass` | GameFiles/MazeGame.py:79-84 | one pass of the walling-off loop handles the next two positions of the visiting order |
| `MazeGen.MazeGame.WallOff` | GameFiles/MazeGame.py:79-84 | the unchecked neighbours become walls and are appended in the visiting order, the history of pushes growing by exactly the appended positions; nothing else changes; the rebound loop variable ends as `1` |
| `MazeGen.MazeGame.Convert` | GameFiles/MazeGame.py:77-84 | the popped wall becomes a path whose parent is the path cell behind it, its unchecked neighbours are walled off, and path cells stay path cells |
| `MazeGen.MazeGame.ConsiderWall` | GameFiles/MazeGame.py:68-84 | along one axis: when the cell ahead is unchecked, the cell behind is a path and the wall has fewer than two path neighbours, the wall is converted and `1` returned; otherwise nothing changes and `offset` is returned |
| `MazeGen.FirstFiring` | GameFiles/MazeGame.py:67-101 | the check it picks is one of the given checks and fires |
| `MazeGen.FirstFiringNone` | GameFiles/MazeGame.py:67-101 | no check is chosen exactly when none of the guarded checks (range test and conversion test) holds |
| `MazeGen.FirstFiringIsFirst` | GameFiles/MazeGame.py:67-101 | the chosen check holds, and no check earlier in the order x,-1; y,-1; x,1; y,1 does |
| `MazeGen.WalledQuiet` | GameFiles/MazeGame.py:67-89 | once a wall has no unchecked neighbour, none of its checks can fire, so a converted wall is never converted again |
| `MazeGen.CheckStep` | GameFiles/MazeGame.py:67-101 | the `j`-th check in the loop behaves as the `j`-th check of that order on the grid as it was, until one fires, and changes nothing after that |
| `MazeGen.MazeGame.GuardedCheck` | GameFiles/MazeGame.py:67-101 | the range test of one axis and its check advance the outcome by one check of the order, and the offset stays unchanged until a conversion |
| `MazeGen.MazeGame.CheckPass` | GameFiles/MazeGame.py:68-101 | one pass of the outer loop makes the two checks for its offset, the check along y using the offset the check along x may have rebound |
| `MazeGen.MazeGame.CheckWall` | GameFiles/MazeGame.py:67-101 | if no check of the popped wall fires on the grid as it was, grid, frontier and tree are unchanged; otherwise the wall is converted along the first check that fires, in the order x,-1; y,-1; x,1; y,1. The invariant and the path cells are kept, and the history grows by exactly the appended positions |
| `MazeGen.MazeGame.PopWall` | GameFiles/MazeGame.py:63-101 | one iteration of the main loop removes some entry of the frontier and checks it as `CheckWall` does. The popped wall becomes a path exactly when one of its checks fired. The invariant and the path cells are kept, and frontier plus unchecked cells shrink by exactly one, so the loop ends |
| `MazeGen.MazeGame.SeedStart` | GameFiles/MazeGame.py:52-53 | the starting cell becomes a path and the root of the tree |
| `MazeGen.MazeGame.Seed` | GameFiles/MazeGame.py:52-60 | the start is a path, its four neighbours are walls and are the frontier in the source's order, and every other cell is still unchecked |
| `MazeGen.MazeGame.FillUnchecked` | GameFiles/MazeGame.py:104-107 | every unchecked cell becomes a wall at the same position; every other cell is unchanged |
| `MazeGen.MazeGame.GenerateMaze` | GameFiles/MazeGame.py:49-107 | fails (as `randint` does) exactly when a side is below 3, changing nothing; otherwise it leaves only walls and paths, a wall border, an interior starting path cell, an empty frontier, and path cells forming a tree rooted at the start; the history of pushes begins with the start's four neighbours and holds no position twice, and every frontier entry along the way was one of those pushes |
| `Players.GetInput` | GameFiles/Player.py:25-40 | an arrow key gives the direction whose key it is; any other key gives `None` |
| `Players.Target` | GameFiles/Player.py:48-58 | a direction aims at a cardinal neighbour; no direction aims at the current position |
| `Players.PyIndex` | GameFiles/Player.py:60 | Python list indexing: defined exactly for `-n <= i < n`, counting negative indices from the end |
| `Players.CellAt` | GameFiles/Player.py:60 | the lookup only ever raises `IndexError`, and inside the grid it is the cell at that position |
| `Players.Step` | GameFiles/Player.py:60-61 | the player moves to the target exactly when it may stand there, and otherwise stays |
| `Players.MovesStayOpen` | GameFiles/Player.py:60-61 | a player that starts on a non-wall cell is on a non-wall cell after any sequence of moves |
| `Players.MovesStayOnPath` | GameFiles/Player.py:60-61 | on a generated maze, a player that starts on a path cell stays on path cells inside the grid |
| `Players.Collides` | GameFiles/Player.py:75-83 | monster if any monster is at the position, else trap if any trap is, else treasure if the treasure is, else no collision; the flag is true exactly when there is a collision |
| `Players.Player.constructor` | GameFiles/Player.py:11-23 | a new player has 3 lives and stands at `(1, 1)` |
| `Players.Player.MovePlayer` | GameFiles/Player.py:42-61 | the new position is `Step` of the old one; an `IndexError` is reported exactly when the lookup raises; lives are untouched |
| `Players.Player.CheckCollision` | GameFiles/Player.py:63-83 | the loops with early return give `Collides` |
| `Players.Player.LoseLife` | GameFiles/Player.py:85-89 | lives drop by exactly one; the game is over exactly when no life is left |

## Left out

- The Tkinter GUI, sprites and timers (`GameFiles/MazeGameGUI.py`) are not part of this model, nor is the key binding that feeds `move_player`.
- `save_game` and `load_game` are left out because they do file I/O.
- `print_maze`, and the `print` calls in `save_game` and `lose_life`, are left out because they write to the console.
- `update_score` and `start_time` are left out because they read the wall clock.
- `end_game` and `reset_maze` are left out because they are stubs.
- `GameFiles/Maze.py` is an older draft that does not parse, so it is not modelled. Monsters and game elements are stubs or unimplemented placement, so they are left out too.
- The `random` module itself is not modelled. Its outputs are nondeterministic choices in the same ranges.
- MazeGen.MazeGame.constructor: the sizes are natural numbers. With a negative size Python builds an empty grid, and `generate_maze` then fails in `randint`.
- MazeGen.MazeGame.GenerateMaze requires the grid the constructor built: all cells unchecked and an empty frontier. The source calls it only in that state. A second call on a generated maze is not modelled.
- MazeGen.MazeGame.FillUnchecked: the source sets `type` on the existing cell object. Cells are values here, so the model puts a new cell with the same position in its place. Aliasing of cell objects is not captured. That includes `game_state['maze']`, which is the same list as `self.maze`; the model keeps one field.
- PyStr.ParseInt accepts surrounding space, `\t`, `\n`, `\v`, `\f` and `\r`, an optional sign and ASCII digits. Python's `int()` also accepts underscores between digits, non-ASCII digits, and every other whitespace character Python strips, including the ASCII separators `\x1c`-`\x1f` and Unicode whitespace. Saved strings never contain these.
- SaveParsing.ParseListRepr covers grids whose rows are non-empty and whose type names contain none of `=`, `<`, `>`, `[`. An empty row does not read back: `'[[]]'` parses as `[[None]]`.
- SaveParsing.ParseDictRepr takes the dictionary as its entries in insertion order, which is the order `str()` writes them.
- Players.Player.MovePlayer returns the `IndexError` as a value. In the source the exception propagates out of the key handler, and the position stays unchanged.
- Players.Player.MovePlayer models a direction as one of the four directions or `None`. Any other string behaves like `None` in the source, which is the "no move" case.
- Players.Player.CheckCollision takes monsters by their positions. It takes traps as a sequence of positions; iterating the traps dictionary yields its keys.

Facts about the code that the model keeps:

- `get_cell_neighbors` looks at `(x, y-1)`, `(x-1, y)`, `(x, y+1)`, `(x+1, y)`, in that order (GameFiles/MazeGame.py:332-347).
- `generate_maze` needs each side to be at least 3. For a smaller side `random.randint(1, side - 2)` raises `ValueError` (GameFiles/MazeGame.py:52), and the model returns `false` with nothing changed. The larger minimum of 9 appears only in a comment (Main.py:7).
- The frontier `self.walls` is a list. It is appended to (GameFiles/MazeGame.py:57-60) and popped at a random index (GameFiles/MazeGame.py:65). The model proves that it never holds a position twice.
