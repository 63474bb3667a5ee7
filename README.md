# Grid maze with a breadth-first solver

This project models the grid maze of two small programs: `maze/main.py` and its
TypeScript port `maze-solver/index.ts`. A maze is a `rows x columns` grid of
cells. Each cell is empty, blocked, the start, the goal or part of a drawn path.
The start is the top-left corner and the goal the bottom-right one. Random
cells are blocked when the maze is built. `solve` runs a breadth-first search
from the start over the four-directional neighbours of open cells. It keeps a
FIFO queue of paths-so-far and a visited set. When it finds a path to the goal
it draws that path into the grid.

Modules:

- `Grid` (grid.dfy): cells, locations, glyphs, grid shape, the neighbour
  enumeration (down, up, right, left), walks through open cells, and counting
  the cells of a grid.
- `Bfs` (bfs.dfy): the search invariant both solvers keep, and one lemma per
  search step. The results are that the path found is a shortest walk from
  start to goal, and that an exhausted search proves the goal unreachable.
  `Bfs.Search` is the whole search written as a function of the grid: queue
  order, neighbour order and the visited set decide which shortest path is
  found, and both solvers are proved to return exactly the path it gives.
- `LocationKey` (location_key.dfy): the `"row,column"` string under which the
  TypeScript solver records visited locations. Distinct locations have
  distinct keys, so the set of keys stands for a set of locations.
- `Maze` (maze.dfy): the Python `Maze` class.
- `MazeSolver` (maze_solver.dfy): the TypeScript `Maze` class.

A location (`MazeLocation`, maze/main.py:16-18 and maze-solver/index.ts:9-12)
is the datatype `Grid.Location` with a row and a column. What the constructors
leave in each cell is `Grid.ConstructedCell`.

Each source class becomes a Dafny class with a `grid: seq<seq<Cell>>` field.
Its methods reassign this field. Loops become methods with loop invariants.
Queries become functions. The inner `for` loop of `solve` is its own method,
`VisitNeighbours`, in each class. The random draws are an input: `blocks[r][c]`
holds exactly when the draw for cell `(r, c)` fell below the sparseness.

The two `solve` methods differ, and the model keeps the difference:

- Python: the search does not stop at the goal. It draws the goal's path when
  that path is dequeued, runs until the queue is empty, and then reports
  "No solution" whatever happened. `Maze.Maze.Solve` returns the path it drew,
  if any, and the flag `saysNoSolution`, which always holds.
- TypeScript: the search returns right after drawing. The result is the path,
  or `None` in the branch that logs "No solution".

`find_next_possible_locations` returns nothing for a blocked location. Its doc
comment names the order "top, right, bottom, left". The code tests down, up,
right, left, and the model follows the code. Python's `solve` iterates over
the result directly; the TypeScript one first tests `if (nextLocations)`. The
model proves that a dequeued location is never blocked, so the `None` case
never arises in either solver.

## Model

| member | source | states |
|---|---|---|
| Grid.GlyphsDistinct | maze/main.py:8-13 | the five cell kinds have five distinct one-character values, none of them a newline |
| Grid.Neighbours | maze/main.py:50-60 | the list holds exactly the open cells adjacent to the location, in the order down, up, right, left, and at most four of them |
| Grid.NeighboursListed | maze/main.py:51-58 | the four one-direction lists, concatenated, list every open neighbour, only open neighbours, with direction ranks strictly increasing |
| Grid.CandidatesSound | maze/main.py:51-58 | every listed location is open and at Manhattan distance 1 |
| Grid.CandidatesComplete | maze/main.py:51-58 | every open location at Manhattan distance 1 is listed |
| Grid.CandidatesOrdered | maze/main.py:51-58 | listed locations come in the order down, up, right, left |
| Grid.SetCell | maze/main.py:43 | an assignment to one grid cell changes that cell and no other, and keeps the grid's shape |
| Grid.RowText | maze/main.py:99 | a row's text has one character per cell, the glyph of that cell |
| Grid.WalkAtLeastManhattan | maze-solver/index.ts:85 | a walk through open cells has at least one location more than the Manhattan distance between its ends |
| Grid.CellCount | maze/main.py:33 | a `rows x columns` grid has `rows * columns` locations, which bounds how many locations the search can visit |
| Grid.OpenCount | maze/main.py:78-92 | a set of open locations, such as the visited set, has at most `rows * columns` members |
| Bfs.InitInv | maze/main.py:77-78 | the queue holding only the one-location path at the start, with only the start visited, satisfies the search invariant |
| Bfs.VisitBegin | maze/main.py:81-82 | taking the head path off the queue starts the visit of its end's neighbours with the invariant intact |
| Bfs.VisitNew | maze/main.py:88-92 | marking an unvisited open neighbour visited and enqueueing the path extended by it keeps every queued path a simple, shortest walk from the start whose locations are all visited; queued ends stay distinct and unexpanded, and queued lengths stay non-decreasing within one of each other |
| Bfs.VisitOld | maze/main.py:88 | a neighbour visited already changes nothing |
| Bfs.VisitEnd | maze/main.py:87-92 | once every open neighbour is visited, the dequeued end counts as expanded and the search invariant holds again |
| Bfs.NewPathsNone | maze/main.py:87-92 | when every neighbour is visited already, the neighbour loop queues nothing |
| Bfs.SearchAdvances | maze/main.py:80-92 | each dequeue either visits a location not visited before or leaves the visited set as it was and the queue shorter, so the search ends |
| Bfs.PendingOutcome | maze/main.py:80-84 | the search ends in nothing when the queue is empty, and in the head path when that path ends at the goal |
| Bfs.PendingStep | maze/main.py:80-92 | dequeuing a path that does not end at the goal, visiting its end's neighbours in the listed order and queueing the extended paths leaves the outcome of the search unchanged |
| Bfs.ExhaustedUnreachable | maze/main.py:80-94 | when the queue runs empty without the goal expanded, no walk from the start reaches the goal |
| Bfs.StaircaseWalk | maze-solver/index.ts:85 | in a grid with no blocked cell, every cell is reached from the top-left corner by a walk of `row + column` steps |
| Bfs.ShortestInOpenGrid | maze-solver/index.ts:85 | in a grid with no blocked cell, a shortest path from the top-left corner has exactly as many steps as the Manhattan distance it covers |
| LocationKey.Key | maze-solver/index.ts:102 | the text before the key's first comma is the row in decimal, and the text after it the column in decimal |
| LocationKey.IntToStringRoundTrip | maze-solver/index.ts:102 | the decimal text of an integer, as a template literal writes it, reads back as that integer |
| LocationKey.KeyRoundTrip | maze-solver/index.ts:102 | the key `row,column` of a location parses back to that location |
| LocationKey.KeyInjective | maze-solver/index.ts:102 | two locations have the same key exactly when they are equal |
| LocationKey.KeysOfSingle | maze-solver/index.ts:87 | the initial visited set, holding the start's key, stands for the set holding the start alone |
| LocationKey.KeysOfAdd | maze-solver/index.ts:106 | adding a location's key to the visited keys adds exactly that location to the set they stand for |
| Maze.DrawnCellStep | maze/main.py:68-71 | after one more listed location, a cell is the goal if it is the goal, else the start if it is the start, else part of the path if it is that location, else what the earlier locations left |
| Maze.DrawnOpen | maze/main.py:66-71 | drawing a path of open cells neither blocks nor unblocks any cell |
| Maze.DrawnNeighbours | maze/main.py:84-87 | after drawing, every location has the same open neighbours as before, so the search goes on unaffected |
| Maze.Maze.constructor | maze/main.py:22-36 | the grid has `rows` rows of `columns` cells; the goal is stamped over the start, the start over the random fill, and every other cell is empty or blocked as its draw says |
| Maze.Maze.RandomlyFill | maze/main.py:38-43 | exactly the cells whose draw says so become blocked; nothing else is written |
| Maze.Maze.FindNextPossibleLocations | maze/main.py:45-60 | nothing exactly for a blocked location; otherwise at most four locations: all open neighbours and only those, in the order down, up, right, left |
| Maze.Maze.GoalTest | maze/main.py:62-64 | tuple equality with the goal holds exactly when row and column both match |
| Maze.Maze.DrawPath | maze/main.py:66-71 | an empty list changes nothing; otherwise the goal cell is the goal, the start cell the start, every other listed cell part of the path, and every other cell unchanged |
| Maze.Maze.VisitNeighbours | maze/main.py:87-92 | the visited set grows by exactly the neighbours not yet in it; the paths extended by them join the back of the queue in the order the neighbours are listed, each neighbour once, and nothing else is queued; the search invariant holds afterwards, with the dequeued end expanded |
| Maze.Maze.Solve | maze/main.py:75-94 | a drawn path is a shortest walk from start to goal through open cells, with no location repeated, and the grid is that path drawn on the old grid; the path drawn is exactly the one `Bfs.Search` gives for the old grid; no path is drawn only when the goal is unreachable, and then the grid is unchanged; at most one path is drawn and at most `rows * columns` paths are dequeued; "No solution" is reported in every case |
| Maze.OneCellSolve | maze/main.py:84-94 | solving the one-cell maze, whose start is its goal, draws the one-location path and still reports no solution |
| Maze.Maze.ToString | maze/main.py:96-100 | the text is the rows' lines in order, each the row's glyphs and a newline, `rows * (columns + 1)` characters in all |
| Maze.LinesLength | maze/main.py:96-100 | the text of a grid with rows of `w` cells has `w + 1` characters per row |
| Maze.LinesRow | maze/main.py:96-100 | row `r` occupies the `w + 1` characters from `r * (w + 1)`: its glyphs, then a newline |
| MazeSolver.Maze.constructor | maze-solver/index.ts:21-31 | the grid has `rows` rows of `columns` cells; the goal is stamped over the start, the start over the random fill, and every other cell is empty or blocked as its draw says |
| MazeSolver.Maze.CreateGrid | maze-solver/index.ts:33-35 | a `rows x columns` grid of empty cells |
| MazeSolver.Maze.RandomlyFillGrid | maze-solver/index.ts:37-45 | exactly the cells whose draw says so become blocked; nothing else is written |
| MazeSolver.Maze.FindNextPossibleLocations | maze-solver/index.ts:47-70 | nothing exactly for a blocked location; otherwise at most four locations: all open neighbours and only those, in the order down, up, right, left |
| MazeSolver.Maze.GoalTest | maze-solver/index.ts:72-74 | comparing row and column holds exactly when the location equals the goal |
| MazeSolver.Maze.DrawPath | maze-solver/index.ts:76-82 | the goal cell is the goal and the start cell the start, even for an empty list; every other listed cell is part of the path, and every other cell is unchanged |
| MazeSolver.Maze.VisitNeighbours | maze-solver/index.ts:101-109 | the visited keys grow by exactly the keys of the neighbours not yet visited; the paths extended by them join the back of the queue in the order the neighbours are listed, each neighbour once, and nothing else is queued; the search invariant holds afterwards |
| MazeSolver.Maze.Solve | maze-solver/index.ts:84-114 | a returned path is a shortest walk from start to goal through open cells, with no location repeated, and the grid is that path drawn on the old grid; the path returned is exactly the one `Bfs.Search` gives for the old grid, so it is the path the Python solver draws; `None` is returned only when the goal is unreachable, with the grid unchanged; at most `rows * columns` paths are dequeued |
| MazeSolver.Maze.ToString | maze-solver/index.ts:116-118 | the text is the rows' glyph strings joined by newlines, with no trailing newline, `rows * (columns + 1) - 1` characters in all; `JoinedCell` and `JoinedBreak` place each glyph and newline |
| MazeSolver.JoinedLength | maze-solver/index.ts:117 | joining `n` rows of `w` glyphs with newlines gives `n * (w + 1) - 1` characters |
| MazeSolver.JoinedCell | maze-solver/index.ts:117 | the glyph of cell `(r, c)` stands at position `r * (w + 1) + c` |
| MazeSolver.JoinedBreak | maze-solver/index.ts:117 | a newline follows every row but the last |

## Left out

- Random sampling (`random.uniform`, `Math.random`) and the `sparseness` comparison: the draws are the `blocks` input.
- Output: `print(self)` in `draw_path`, the `print` and `console.log` calls in `solve`, and the `main()` drivers. The Python "No solution" report is the `saysNoSolution` result.
- Python `solve` and TypeScript `solve` return nothing. The models return the drawn path, and a ghost count of dequeued paths.
- Public reassignment of `start` and `goal`: they are fixed at construction here.
- Mazes with `rows < 1` or `columns < 1`: Python raises `IndexError` when it stamps the start or goal; TypeScript throws for `rows < 1` or `columns < 0`, and with `columns = 0` builds a degenerate grid. The constructors require both to be at least 1.
- Default arguments (`rows = 10`, `columns = 10`, `sparseness = 0.15`; maze/main.py:24-26, maze-solver/index.ts:21): Dafny has no default parameters, so every caller passes the dimensions and the draws.
- Negative indices: Python reads `grid[-1]` as the last row. The model never indexes out of bounds, so this never comes up.
- Maze.Maze.RandomlyFill and MazeSolver.Maze.RandomlyFillGrid: they require the requested `rows` and `columns` to fit in the grid. The source calls them only with the maze's own dimensions.
- JavaScript number formatting: keys use integers written in decimal with a leading `-` for negatives. Non-integer or exponent notation does not arise for grid coordinates.
- expense-tracker/ and data_visualization/ are not part of this model: CSV and plotting I/O, and a random walk whose termination depends on the random draws.

## Findings

| source | as written | input that shows it | evidently intended | confidence | as-written member | corrected member |
|---|---|---|---|---|---|---|
| maze/main.py:84-94 | after drawing the goal's path, `solve` goes on searching, leaves the loop when the queue is empty, and prints "No solution" | the 1 x 1 maze: its start is its goal, the path `[(0, 0)]` is drawn, and "No solution" follows | return right after drawing, as the docstring ("prints out the path if it exists else a message") and the TypeScript port (maze-solver/index.ts:93-97) do, so the message appears only when the goal is unreachable | high; not executed | Maze.Maze.Solve, Maze.OneCellSolve | MazeSolver.Maze.Solve |
