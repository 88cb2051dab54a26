# MazeState in Dafny

A verified model of the game state used by the search-algorithm primer
(`SearchAlgoPrimer/MazeState.cs`). It covers a small maze game on an H-by-W
grid of point values. Characters walk right, left, down or up. Stepping on a
cell with a positive value collects it, and the cell becomes 0. The game
ends after a fixed number of turns. For search, a state is scored by its
*enclosed* cells: a flood fill starts at the corner of a grid padded by one
cell on every side. It spreads over 8-neighbours and is stopped by cells of
point value 0. Cells the fill cannot reach stay flagged as enclosed, and
their points are summed into the evaluated score. Search ranks states by
that score, highest first.

The project has three modules:

- `Geometry` (`geometry.dfy`):
  - `Coord`, the move tables `Dx`/`Dy` (right, left, down, up) and `Legal`;
  - the fact that a character on the board has no legal move exactly when
    the board is a single cell.
- `Enclosure` (`enclosure.dfy`): the theory behind the fill, on a value
  copy `g` of the grid.
  - `Wall` is a grid cell of value 0, and `Open` is a padded cell that is
    not a wall.
  - `Reachable` means an 8-connected path of open cells leads to the cell
    from the padded corner.
  - `Enclosed` means not reachable; `EnclosedSum` is the sum of the enclosed
    points.
  - Lemmas: the reachable cells are the least set that contains the corner
    and is closed under open steps; the padding ring is always reachable; a
    border cell is enclosed exactly when it is a wall; zero-point cells are
    always enclosed; a grid without walls has enclosed sum 0; the
    flag-weighted sum under the enclosure flags is the enclosed sum.
- `Maze` (`maze_state.dfy`): `class MazeState`.
  - Fields: `points` is an `array2<int>`, and `characters` is a `CoordList`
    object, so that the list can be shared as in the source.
  - The source's methods become methods with loops and `modifies` clauses.
  - `isDone` and `MazeStateComparer.Compare` become functions.

`checkTile` is a recursive method, as in the source:

- Termination uses a ghost measure: the padded cells not yet cleared.
- Its contract keeps two facts true throughout:
  - every cleared cell lies in a ghost set `reach` that is closed under open
    steps;
  - the cleared set is closed except at the cells still on the call stack.
- From these, `FillMask` proves the result: after the fill from the corner,
  a padded cell has flag 0 exactly when it is reachable.
- The source's eight recursive calls are written as a loop over the
  neighbour table `NDx`/`NDy`. The loop makes the same calls in the same
  order: (x+1,y+1), (x+1,y), (x+1,y-1), (x,y+1), (x,y-1), (x-1,y+1),
  (x-1,y), (x-1,y-1).

Where the code as written cannot run, the model follows the evident intent,
and a comment at the member marks the deviation:

- `checkTile` tests `points_[y, x]` with padded coordinates on an H-by-W
  array, which reads out of bounds. Here the padding ring never blocks, and
  padded cell (x, y) reads `points[y - 1, x - 1]`.
- The trimming loop of `getMaskedState` writes `trim[h, w]` for
  1 <= h <= H and 1 <= w <= W into an H-by-W array. Here it writes
  `trim[h - 1, w - 1]`.

Notes on the code's behaviour:

- The fill is recursive, as in the source.
- A cell blocks the fill when its point value is 0, including the start cell, every
  collected cell and every cell whose draw was 0. Ownership plays no part.
- `evaluateScore` sums the points of every enclosed cell.
- `copy` deep-copies the grid and the character list. The snapshot
  constructor clones the grid but keeps the caller's character list, and
  `MazeState.Snapshot` states that aliasing (`this.characters ==
  characters`).

## Model

| member | source | states |
|---|---|---|
| Geometry.MovedIsOneStep | SearchAlgoPrimer/MazeState.cs:12-13 | actions 0..3 move one cell right, left, down and up |
| Geometry.NoLegalActionIffSingleCell | SearchAlgoPrimer/MazeState.cs:165-179 | a character on the board has no legal action if and only if the board is 1-by-1 |
| Maze.MazeState.Seeded | SearchAlgoPrimer/MazeState.cs:22-42 | 3-by-4 board, 4 turns, one character at the drawn start, start cell 0, every other cell the next draw in row-major order, all values in 0..9, turn and scores 0, first action -1 |
| Maze.DrawPoints | SearchAlgoPrimer/MazeState.cs:33-41 | a fresh 3-by-4 array: start cell 0, every other cell the draw numbered by the cells before it in row-major order (the start cell takes none), all values in 0..9 |
| Maze.MazeState.Snapshot | SearchAlgoPrimer/MazeState.cs:44-53 | dimensions, end turn, turn and game score as given; points a fresh copy with the same cells; the character list is the caller's own object (aliased); evaluated score 0, first action -1 |
| Maze.CloneGrid | SearchAlgoPrimer/MazeState.cs:51 | the clone is a fresh array with the same dimensions and cells |
| Maze.CoordList.constructor | SearchAlgoPrimer/MazeState.cs:17 | the character list object (`List<Coord>`) holds exactly the given coordinates; it is an object so that two states can share it |
| Maze.MazeState.IsDone | SearchAlgoPrimer/MazeState.cs:57-60 | the game is over exactly when the turn counter equals the end turn; `Advance` proves it holds after a move exactly when the new turn reaches the end turn |
| Maze.MazeState.Advance | SearchAlgoPrimer/MazeState.cs:145-158 | character `index` moves by the action and stays on the board, the others are unchanged; a positive destination value is added to the game score and the cell becomes 0, otherwise score and cell are unchanged; no other cell changes; the turn grows by 1, and afterwards isDone holds exactly when the new turn equals the end turn |
| Maze.MazeState.LegalActions | SearchAlgoPrimer/MazeState.cs:165-179 | exactly the actions whose destination is on the board, in strictly increasing order (so without duplicates) |
| Maze.MazeState.Copy | SearchAlgoPrimer/MazeState.cs:223-229 | a fresh state with fresh point array and fresh character list; every scalar field, every cell and the character sequence equal to the original's |
| Maze.MazeState.AdvanceCopy | SearchAlgoPrimer/MazeState.cs:223-229 | advancing a copy gives the moved characters, turn + 1 and the collected score, while the original state, its points and its characters stay unchanged |
| Maze.MazeState.CheckTile | SearchAlgoPrimer/MazeState.cs:118-137 | flags only go from 1 to 0; nothing changes for an off-board, already cleared or blocking cell; an open cell ends cleared; cleared cells stay inside any set closed under open steps; the cleared set stays closed except at the cells on the call stack; terminates |
| Maze.MazeState.FillMask | SearchAlgoPrimer/MazeState.cs:94-105 | after the fill from the padded corner, a padded cell has flag 0 if and only if it is reachable, else 1; for grid cells, flag 1 if and only if enclosed |
| Maze.TrimPadding | SearchAlgoPrimer/MazeState.cs:108-113 | the trimmed array is two rows and two columns smaller than the padded mask, and its cell (r, c) is the mask's cell (r + 1, c + 1): the padding ring is dropped |
| Maze.MazeState.GetMaskedState | SearchAlgoPrimer/MazeState.cs:83-116 | a newly allocated H-by-W array with 1 exactly at the enclosed cells and 0 at every other cell |
| Maze.SumFlagged | SearchAlgoPrimer/MazeState.cs:69-76 | the loop total is the sum of the points whose flag is 1 |
| Maze.MazeState.EvaluateScore | SearchAlgoPrimer/MazeState.cs:63-79 | the evaluated score becomes the sum of the points of the enclosed cells; no other field changes |
| Enclosure.FlaggedSumIsEnclosed | SearchAlgoPrimer/MazeState.cs:67-78 | summing the points under the enclosure flags gives the enclosed sum |
| Enclosure.RowFlaggedSumIsEnclosed | SearchAlgoPrimer/MazeState.cs:72-75 | the same for a prefix of one row |
| Enclosure.CornerReachable | SearchAlgoPrimer/MazeState.cs:105 | the fill's starting corner is reachable |
| Enclosure.ReachableIsOpen | SearchAlgoPrimer/MazeState.cs:120-124 | only open cells are reachable: off-board and zero-point cells never are |
| Enclosure.ReachableStep | SearchAlgoPrimer/MazeState.cs:126-135 | reachability spreads from a reachable cell to every open 8-neighbour |
| Enclosure.NeighbourIsAdjacent | SearchAlgoPrimer/MazeState.cs:127-135 | each entry of the neighbour table is an 8-neighbour, and the entries are pairwise distinct |
| Enclosure.NeighbourIndex | SearchAlgoPrimer/MazeState.cs:127-135 | every 8-neighbour appears in the neighbour table |
| Enclosure.ReachableInClosedSet | SearchAlgoPrimer/MazeState.cs:94-105 | every reachable cell lies in each set that contains the corner and is closed under open steps |
| Enclosure.ReachableCells | SearchAlgoPrimer/MazeState.cs:94-105 | the set of reachable padded cells |
| Enclosure.ReachableCellsClosed | SearchAlgoPrimer/MazeState.cs:126-135 | the reachable cells are closed under open steps |
| Enclosure.ReleasePending | SearchAlgoPrimer/MazeState.cs:126-135 | once all open neighbours of a cell are cleared, that cell no longer breaks the closure of the cleared set |
| Enclosure.FewerToClear | SearchAlgoPrimer/MazeState.cs:126 | clearing a new cell strictly shrinks the set of cells left to clear (the termination measure) |
| Enclosure.RingReachable | SearchAlgoPrimer/MazeState.cs:85-86 | every cell of the padding ring is reachable, so the padding is never enclosed |
| Enclosure.BorderCellEnclosedIffWall | SearchAlgoPrimer/MazeState.cs:88-90 | a grid cell on the outer row or column is enclosed if and only if its point value is 0 |
| Enclosure.WallIsEnclosed | SearchAlgoPrimer/MazeState.cs:123-124 | a zero-point cell always keeps its enclosed flag |
| Enclosure.NoWallsEncloseNothing | SearchAlgoPrimer/MazeState.cs:63-79 | if no cell has point value 0, the enclosed sum is 0 |
| Maze.CompareTo | SearchAlgoPrimer/MazeState.cs:186 | Int64.CompareTo: -1, 0, 1 exactly when below, equal, above |
| Maze.Compare | SearchAlgoPrimer/MazeState.cs:181-188 | negative if and only if x scores higher, zero if and only if the scores are equal, positive if and only if y scores higher |
| Maze.SortedByCompareIsDescending | SearchAlgoPrimer/MazeState.cs:181-188 | a sequence ordered by the comparer has non-increasing evaluated scores: the best state comes first |

## Left out

- Maze.MazeState.Advance: `game_score_` is a 32-bit `int` in the source. The model uses unbounded integers, so overflow wrap-around is not modelled.
- Maze.MazeState.EvaluateScore: `totalScore` is a 32-bit `int` in the source before it is stored in the 64-bit evaluated score. The model sums without wrap-around.
- Maze.SumFlagged: sums without 32-bit wrap-around, for the same reason.
- Maze.MazeState.Snapshot: requires the array's dimensions to equal `height` and `width`. The source accepts any array. An array smaller than height-by-width later causes out-of-range accesses. A larger array never causes an error: `legalActions` and `evaluateScore` look only at the first height rows and width columns, and the extra cells are ignored.
- Maze.MazeState.Seeded: `System.Random` is not modelled. The start row, the start column and the eleven cell values are inputs; the source draws them from a generator seeded with `seed`.
- Maze.MazeState.Advance: requires 0 <= action < 4, a valid character index and an on-board destination. The source has no checks for these cases:
  - an action outside 0..3 throws at `dx[action]`;
  - an index out of range throws at `characters[index]`;
  - an off-board destination throws when `points_` is read, after the moved character has already been stored in the list, so the failed call leaves the state changed.
  The model has none of these exception paths. The default argument `index = 0` is dropped: a call without an index, such as those in `SearchAlgoPrimer/Program.cs` at lines 12 and 24, is the call with index 0.
- Maze.MazeState.LegalActions: requires a valid character index. The source throws at `characters[index]` for any other index, and the model has no exception path. The default argument `index = 0` is dropped: a call without an index, such as those in `SearchAlgoPrimer/Program.cs` at lines 12 and 24, is the call with index 0.
- `ToString` (a debug text rendering) is not part of this model.
- `SearchAlgoPrimer/Program.cs` (console driver and `randomAction`) and `SearchAlgoPrimer/KakomimasuClient.cs` (HTTP/JSON match client) are not part of this model.
- The recursion depth of `checkTile` (a stack-overflow risk on large grids) is not a property of the model.
- `Coord` is a value datatype. The source's copy-on-read struct semantics in `advance` are modelled by replacing the list element with the moved value.
