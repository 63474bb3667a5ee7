/** The maze of maze-solver/index.ts, the TypeScript port: the same grid and
  * neighbour enumeration, but `solve` records visited locations under the
  * string key "row,column", stops at the first dequeued path that reaches
  * the goal, and `drawPath` restores the start and goal stamps once, after
  * the loop. The random draws are an input: `blocks[r][c]` says whether the
  * draw for cell (r, c) fell below the sparseness. */
module MazeSolver {
  import opened Grid
  import opened LocationKey
  import Bfs

  /** What `drawPath(locations)` leaves in the cell at `l` that held `was`:
    * the start and goal stamps are restored after the loop whatever the list,
    * and every other listed cell becomes part of the path. */
  ghost function DrawnCell(was: Cell, l: Location, locations: seq<Location>, start: Location, goal: Location): Cell
  {
    if l == goal then Goal
    else if l == start then Start
    else if l in locations then Path
    else was
  }

  /** The whole grid `g` after `drawPath(locations)`. */
  ghost function DrawnGrid(g: seq<seq<Cell>>, locations: seq<Location>, start: Location, goal: Location): seq<seq<Cell>>
  {
    seq(|g|, r requires 0 <= r < |g| =>
      seq(|g[r]|, c requires 0 <= c < |g[r]| => DrawnCell(g[r][c], Location(r, c), locations, start, goal)))
  }

  class Maze {
    const rows: int
    const columns: int
    const start: Location
    const goal: Location
    var grid: seq<seq<Cell>>

    /** The grid has the maze's shape, and start and goal carry their stamps
      * (the goal's when the two coincide). */
    ghost predicate Valid()
      reads this
    {
      rows >= 1 && columns >= 1
      && start == Location(0, 0) && goal == Location(rows - 1, columns - 1)
      && Shaped(grid, rows, columns)
      && grid[goal.row][goal.column] == Goal
      && grid[start.row][start.column] == (if start == goal then Goal else Start)
    }

    constructor (rows: int, columns: int, blocks: seq<seq<bool>>)
      requires rows >= 1 && columns >= 1 && Shaped(blocks, rows, columns)
      ensures Valid()
      ensures this.rows == rows && this.columns == columns
      ensures forall r, c :: 0 <= r < rows && 0 <= c < columns ==>
                grid[r][c] == ConstructedCell(blocks, start, goal, Location(r, c))
      ensures forall r, c :: 0 <= r < rows && 0 <= c < columns && Location(r, c) != start && Location(r, c) != goal ==>
                grid[r][c] == Empty || grid[r][c] == Blocked
    {
      this.rows := rows;
      this.columns := columns;
      start := Location(0, 0);
      goal := Location(rows - 1, columns - 1);
      new;
      grid := CreateGrid();
      RandomlyFillGrid(rows, columns, blocks);
      grid := SetCell(grid, start, Start);
      grid := SetCell(grid, goal, Goal);
    }

    /** A rows x columns grid of empty cells. */
    function CreateGrid(): (g: seq<seq<Cell>>)
      requires rows >= 0 && columns >= 0
      ensures Shaped(g, rows, columns)
      ensures forall r, c :: 0 <= r < rows && 0 <= c < columns ==> g[r][c] == Empty
    {
      seq(rows, _ => seq(columns, _ => Empty))
    }

    /** Blocks exactly the cells whose draw says so; writes nothing else. */
    method RandomlyFillGrid(rows: int, columns: int, blocks: seq<seq<bool>>)
      requires Shaped(grid, this.rows, this.columns)
      requires 0 <= rows <= this.rows && 0 <= columns <= this.columns && Shaped(blocks, rows, columns)
      modifies this
      ensures Shaped(grid, this.rows, this.columns)
      ensures forall r, c :: 0 <= r < this.rows && 0 <= c < this.columns ==>
                grid[r][c] == if r < rows && c < columns && blocks[r][c] then Blocked else old(grid)[r][c]
    {
      var row := 0;
      while row < rows
        invariant 0 <= row <= rows
        invariant Shaped(grid, this.rows, this.columns)
        invariant forall r, c :: 0 <= r < this.rows && 0 <= c < this.columns ==>
                    grid[r][c] == if r < row && c < columns && blocks[r][c] then Blocked else old(grid)[r][c]
      {
        var column := 0;
        while column < columns
          invariant 0 <= column <= columns
          invariant Shaped(grid, this.rows, this.columns)
          invariant forall r, c :: 0 <= r < this.rows && 0 <= c < this.columns ==>
                      grid[r][c] == if (r < row || (r == row && c < column)) && c < columns && blocks[r][c]
                                    then Blocked else old(grid)[r][c]
        {
          if blocks[row][column] {
            grid := SetCell(grid, Location(row, column), Blocked);
          }
          column := column + 1;
        }
        row := row + 1;
      }
    }

    /** None (`undefined`) for a blocked location; otherwise its open
      * neighbours, down, up, right, left. */
    function FindNextPossibleLocations(ml: Location): (r: Option<seq<Location>>)
      reads this
      requires Valid() && InBounds(rows, columns, ml)
      ensures r.None? <==> grid[ml.row][ml.column] == Blocked
      ensures r.Some? ==> NeighbourList(grid, ml, r.value) && |r.value| <= 4
    {
      if grid[ml.row][ml.column] == Blocked then None
      else Some(Neighbours(grid, rows, columns, ml))
    }

    /** Compares row and column with the goal's. */
    function GoalTest(ml: Location): (r: bool)
      ensures r <==> ml == goal
    {
      ml.row == goal.row && ml.column == goal.column
    }

    /** Marks every listed cell as part of the path, then restores the start
      * and goal stamps. */
    method DrawPath(locations: seq<Location>)
      requires Valid()
      requires forall k :: 0 <= k < |locations| ==> InBounds(rows, columns, locations[k])
      modifies this
      ensures Valid()
      ensures grid == DrawnGrid(old(grid), locations, start, goal)
    {
      var i := 0;
      while i < |locations|
        invariant 0 <= i <= |locations|
        invariant Shaped(grid, rows, columns)
        invariant forall r, c :: 0 <= r < rows && 0 <= c < columns ==>
                    grid[r][c] == if Location(r, c) in locations[..i] then Path else old(grid)[r][c]
      {
        var location := locations[i];
        assert locations[..i + 1] == locations[..i] + [location];
        grid := SetCell(grid, location, Path);
        i := i + 1;
      }
      assert locations[..i] == locations;
      grid := SetCell(grid, start, Start);
      grid := SetCell(grid, goal, Goal);
      SameCells(grid, DrawnGrid(old(grid), locations, start, goal));
    }

    /** The `for (const nextLocation of nextLocations)` loop of `solve`, over
      * the open neighbours `nextLocations` of the end of `path`, just taken
      * off the front of `queue0` (leaving `queue`): each one whose key is not
      * yet in `visited` has its key added, and `path` extended by it joins
      * the back of the queue. `seen` is the set of locations whose keys are
      * in `visited`. Afterwards the end of `path` counts as expanded and the
      * search invariant holds again. */
    method VisitNeighbours(ghost g0: seq<seq<Cell>>, ghost queue0: seq<seq<Location>>, path: seq<Location>,
                           nextLocations: seq<Location>, queue: seq<seq<Location>>, visited: set<string>,
                           ghost seen: set<Location>, ghost expanded: set<Location>)
      returns (queue': seq<seq<Location>>, visited': set<string>, ghost seen': set<Location>)
      requires Bfs.Inv(g0, start, queue0, expanded, seen)
      requires KeysOf(visited, seen)
      requires |queue0| > 0 && path == queue0[0] && queue == queue0[1..]
      requires NeighbourList(g0, Last(path), nextLocations)
      ensures Bfs.Inv(g0, start, queue', expanded + {Last(path)}, seen')
      ensures KeysOf(visited', seen')
      ensures forall y :: y in seen' <==> y in seen || y in nextLocations
      ensures queue' == queue + Bfs.NewPaths(path, nextLocations, seen)
      ensures forall k :: |queue| <= k < |queue'| ==>
                |queue'[k]| > 0 && queue'[k] == path + [Last(queue'[k])]
                && Last(queue'[k]) in nextLocations && Last(queue'[k]) !in seen
      ensures |queue'| - |queue| == |seen'| - |seen|
    {
      Bfs.VisitBegin(g0, start, queue0, expanded, seen);
      queue', visited', seen' := queue, visited, seen;
      var i := 0;
      while i < |nextLocations|
        invariant 0 <= i <= |nextLocations|
        invariant Bfs.Visiting(g0, start, expanded, path, queue, seen, nextLocations[..i], queue', seen')
        invariant KeysOf(visited', seen')
      {
        var nextLocation := nextLocations[i];
        assert nextLocations[..i + 1] == nextLocations[..i] + [nextLocation];
        var locationKey := Key(nextLocation);
        if locationKey !in visited' {
          Bfs.VisitNew(g0, start, expanded, path, queue, seen, nextLocations[..i], queue', seen', nextLocation);
          KeysOfAdd(visited', seen', nextLocation);
          visited' := visited' + {locationKey};
          seen' := seen' + {nextLocation};
          queue' := queue' + [path + [nextLocation]];
        } else {
          Bfs.VisitOld(g0, start, expanded, path, queue, seen, nextLocations[..i], queue', seen', nextLocation);
        }
        i := i + 1;
      }
      assert nextLocations[..i] == nextLocations;
      Bfs.VisitEnd(g0, start, expanded, path, queue, seen, nextLocations, queue', seen');
    }

    /** Breadth-first search from the start. The first dequeued path that
      * ends at the goal is drawn and returned at once; it is a shortest path
      * from start to goal. When the queue runs empty the goal cannot be
      * reached and the grid is unchanged. Every location is enqueued at most
      * once, so at most rows * columns paths are dequeued. */
    method Solve() returns (found: Option<seq<Location>>, ghost dequeues: nat)
      requires Valid()
      modifies this
      ensures Valid()
      ensures found.Some? ==> Bfs.ShortestPath(old(grid), start, goal, found.value)
                              && grid == DrawnGrid(old(grid), found.value, start, goal)
      ensures found.None? ==> grid == old(grid) && Bfs.Unreachable(old(grid), start, goal)
      ensures found == Bfs.Search(old(grid), rows, columns, goal, [[start]], {start})
      ensures dequeues <= rows * columns
    {
      ghost var g0 := grid;
      var queue: seq<seq<Location>> := [[start]];
      var visited: set<string> := {Key(start)};
      ghost var seen: set<Location> := {start};
      ghost var expanded: set<Location> := {};
      KeysOfSingle(start);
      dequeues := 0;
      Bfs.InitInv(g0, start);
      ghost var result := Bfs.Search(g0, rows, columns, goal, queue, seen);
      while |queue| > 0
        invariant Valid() && grid == g0
        invariant Bfs.Inv(g0, start, queue, expanded, seen)
        invariant Bfs.Pending(g0, rows, columns, goal, queue, seen, result)
        invariant KeysOf(visited, seen)
        invariant goal !in expanded
        invariant dequeues + |queue| == |seen|
        decreases rows * columns - |seen|, |queue|
      {
        OpenCount(g0, rows, columns, seen);
        ghost var queueBefore, seenBefore := queue, seen;
        var path := queue[0];
        queue := queue[1..];
        var currentLocation := path[|path| - 1];
        assert currentLocation == Last(path);
        dequeues := dequeues + 1;

        if GoalTest(currentLocation) {
          DrawPath(path);
          found := Some(path);
          return;
        }

        assert Open(g0, currentLocation);
        var nextLocations := FindNextPossibleLocations(currentLocation);
        if nextLocations.Some? {
          queue, visited, seen := VisitNeighbours(g0, queueBefore, path, nextLocations.value, queue, visited,
                                                  seen, expanded);
          Bfs.PendingStep(g0, rows, columns, goal, queueBefore, seenBefore, nextLocations.value, seen, result);
          expanded := expanded + {currentLocation};
        }
      }
      Bfs.ExhaustedUnreachable(g0, start, expanded, seen, goal);
      OpenCount(g0, rows, columns, seen);
      found := None;
    }

    /** The rows' glyphs joined by newlines, with no newline after the last. */
    function ToString(): (s: string)
      reads this
      requires Valid()
      ensures s == Joined(grid) && |s| == rows * (columns + 1) - 1
    {
      JoinedLength(grid, columns);
      Joined(grid)
    }
  }

  /** The rows of `g` as glyph strings, joined with "\n". */
  function Joined(g: seq<seq<Cell>>): string
  {
    if |g| == 0 then ""
    else if |g| == 1 then RowText(g[0])
    else Joined(g[..|g| - 1]) + "\n" + RowText(g[|g| - 1])
  }

  lemma {:induction false} JoinedLength(g: seq<seq<Cell>>, w: int)
    requires |g| >= 1 && forall r :: 0 <= r < |g| ==> |g[r]| == w
    ensures |Joined(g)| == |g| * (w + 1) - 1
  {
    if |g| > 1 {
      JoinedLength(g[..|g| - 1], w);
    }
  }

  /** In the joined text of a grid whose rows all have `w` cells, the glyph
    * of cell (r, c) stands at `r * (w + 1) + c`. */
  lemma {:induction false} JoinedCell(g: seq<seq<Cell>>, w: int, r: int, c: int)
    requires forall r :: 0 <= r < |g| ==> |g[r]| == w
    requires 0 <= r < |g| && 0 <= c < w
    ensures 0 <= r * (w + 1) + c < |Joined(g)|
    ensures Joined(g)[r * (w + 1) + c] == Glyph(g[r][c])
  {
    var n := |g|;
    if n > 1 {
      var init := g[..n - 1];
      assert Joined(g) == Joined(init) + "\n" + RowText(g[n - 1]);
      if r < n - 1 {
        JoinedCell(init, w, r, c);
        assert init[r] == g[r];
      } else {
        JoinedLength(init, w);
        assert |Joined(init) + "\n"| == r * (w + 1);
      }
    }
  }

  /** In the same text a newline follows every row but the last. */
  lemma {:induction false} JoinedBreak(g: seq<seq<Cell>>, w: int, r: int)
    requires forall r :: 0 <= r < |g| ==> |g[r]| == w
    requires 0 <= r < |g| - 1
    ensures 0 <= r * (w + 1) && r * (w + 1) + w < |Joined(g)|
    ensures Joined(g)[r * (w + 1) + w] == '\n'
  {
    var n := |g|;
    var o := r * (w + 1);
    var init := g[..n - 1];
    JoinedLength(g, w);
    JoinedLength(init, w);
    assert Joined(g) == Joined(init) + "\n" + RowText(g[n - 1]);
    if r < n - 2 {
      JoinedBreak(init, w, r);
    } else {
      assert (n - 1) * (w + 1) == (n - 2) * (w + 1) + w + 1;
      assert o + w == |Joined(init)|;
    }
  }
}
