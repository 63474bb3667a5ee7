/** The maze of maze/main.py: a rows x columns grid with the start in the
  * top-left corner and the goal in the bottom-right one, randomly blocked
  * cells, and a breadth-first solver that draws the path it finds into the
  * grid. The random draws are an input: `blocks[r][c]` says whether the draw
  * for cell (r, c) fell below the sparseness. */
module Maze {
  import opened Grid
  import Bfs

  /** What `draw_path(locations)` leaves in the cell at `l` that held `was`:
    * the start and goal stamps are restored after every listed cell, so
    * they win once the list is non-empty, and an empty list changes nothing. */
  ghost function DrawnCell(was: Cell, l: Location, locations: seq<Location>, start: Location, goal: Location): Cell
  {
    if |locations| == 0 then was
    else if l == goal then Goal
    else if l == start then Start
    else if l in locations then Path
    else was
  }

  /** One more listed location: it becomes part of the path unless it is
    * the start or the goal, whose stamps are restored right after it. */
  lemma DrawnCellStep(was: Cell, l: Location, locations: seq<Location>, i: int, start: Location, goal: Location)
    requires 0 <= i < |locations|
    ensures DrawnCell(was, l, locations[..i + 1], start, goal)
            == if l == goal then Goal else if l == start then Start else if l == locations[i] then Path
               else DrawnCell(was, l, locations[..i], start, goal)
  {
    assert locations[..i + 1] == locations[..i] + [locations[i]];
  }

  /** The whole grid `g` after `draw_path(locations)`. */
  ghost function DrawnGrid(g: seq<seq<Cell>>, locations: seq<Location>, start: Location, goal: Location): seq<seq<Cell>>
  {
    seq(|g|, r requires 0 <= r < |g| =>
      seq(|g[r]|, c requires 0 <= c < |g[r]| => DrawnCell(g[r][c], Location(r, c), locations, start, goal)))
  }

  /** Drawing a path of open cells blocks and unblocks nothing, since start
    * and goal are open too. */
  lemma DrawnOpen(g: seq<seq<Cell>>, p: seq<Location>, start: Location, goal: Location, l: Location)
    requires Open(g, start) && Open(g, goal)
    requires forall k :: 0 <= k < |p| ==> Open(g, p[k])
    ensures Open(DrawnGrid(g, p, start, goal), l) <==> Open(g, l)
  {
    assert l == Location(l.row, l.column);
  }

  /** So every location keeps its blocked state and its open neighbours. */
  lemma DrawnNeighbours(g: seq<seq<Cell>>, p: seq<Location>, start: Location, goal: Location, ml: Location)
    requires Open(g, start) && Open(g, goal)
    requires forall k :: 0 <= k < |p| ==> Open(g, p[k])
    ensures Open(DrawnGrid(g, p, start, goal), ml) <==> Open(g, ml)
    ensures forall ns {:trigger NeighbourList(DrawnGrid(g, p, start, goal), ml, ns)} ::
              NeighbourList(DrawnGrid(g, p, start, goal), ml, ns) ==> NeighbourList(g, ml, ns)
  {
    forall l ensures Open(DrawnGrid(g, p, start, goal), l) <==> Open(g, l) {
      DrawnOpen(g, p, start, goal, l);
    }
  }

  class Maze {
    const rows: int
    const columns: int
    const start: Location
    const goal: Location
    var grid: seq<seq<Cell>>

    /** The grid has the maze's shape, and start and goal carry their stamps
      * (the goal's when the two coincide). */
    ghost predicate Valid()
      reads this
    {
      rows >= 1 && columns >= 1
      && start == Location(0, 0) && goal == Location(rows - 1, columns - 1)
      && Shaped(grid, rows, columns)
      && grid[goal.row][goal.column] == Goal
      && grid[start.row][start.column] == (if start == goal then Goal else Start)
    }

    constructor (rows: int, columns: int, blocks: seq<seq<bool>>)
      requires rows >= 1 && columns >= 1 && Shaped(blocks, rows, columns)
      ensures Valid()
      ensures this.rows == rows && this.columns == columns
      ensures forall r, c :: 0 <= r < rows && 0 <= c < columns ==>
                grid[r][c] == ConstructedCell(blocks, start, goal, Location(r, c))
      ensures forall r, c :: 0 <= r < rows && 0 <= c < columns && Location(r, c) != start && Location(r, c) != goal ==>
                grid[r][c] == Empty || grid[r][c] == Blocked
    {
      this.rows := rows;
      this.columns := columns;
      start := Location(0, 0);
      goal := Location(rows - 1, columns - 1);
      grid := seq(rows, _ => seq(columns, _ => Empty));
      new;
      RandomlyFill(rows, columns, blocks);
      grid := SetCell(grid, start, Start);
      grid := SetCell(grid, goal, Goal);
    }

    /** Blocks exactly the cells whose draw says so; writes nothing else. */
    method RandomlyFill(rows: int, columns: int, blocks: seq<seq<bool>>)
      requires Shaped(grid, this.rows, this.columns)
      requires 0 <= rows <= this.rows && 0 <= columns <= this.columns && Shaped(blocks, rows, columns)
      modifies this
      ensures Shaped(grid, this.rows, this.columns)
      ensures forall r, c :: 0 <= r < this.rows && 0 <= c < this.columns ==>
                grid[r][c] == if r < rows && c < columns && blocks[r][c] then Blocked else old(grid)[r][c]
    {
      var row := 0;
      while row < rows
        invariant 0 <= row <= rows
        invariant Shaped(grid, this.rows, this.columns)
        invariant forall r, c :: 0 <= r < this.rows && 0 <= c < this.columns ==>
                    grid[r][c] == if r < row && c < columns && blocks[r][c] then Blocked else old(grid)[r][c]
      {
        var column := 0;
        while column < columns
          invariant 0 <= column <= columns
          invariant Shaped(grid, this.rows, this.columns)
          invariant forall r, c :: 0 <= r < this.rows && 0 <= c < this.columns ==>
                      grid[r][c] == if (r < row || (r == row && c < column)) && c < columns && blocks[r][c]
                                    then Blocked else old(grid)[r][c]
        {
          if blocks[row][column] {
            grid := SetCell(grid, Location(row, column), Blocked);
          }
          column := column + 1;
        }
        row := row + 1;
      }
    }

    /** None for a blocked location; otherwise its open neighbours, down, up,
      * right, left. */
    function FindNextPossibleLocations(ml: Location): (r: Option<seq<Location>>)
      reads this
      requires Valid() && InBounds(rows, columns, ml)
      ensures r.None? <==> grid[ml.row][ml.column] == Blocked
      ensures r.Some? ==> NeighbourList(grid, ml, r.value) && |r.value| <= 4
    {
      if grid[ml.row][ml.column] == Blocked then None
      else Some(Neighbours(grid, rows, columns, ml))
    }

    /** Location equality is by value: row and column both match. */
    function GoalTest(ml: Location): (r: bool)
      ensures r <==> ml.row == goal.row && ml.column == goal.column
    {
      ml == goal
    }

    /** Marks every listed cell as part of the path, restoring the start and
      * goal stamps after each one. */
    method DrawPath(locations: seq<Location>)
      requires Valid()
      requires forall k :: 0 <= k < |locations| ==> InBounds(rows, columns, locations[k])
      modifies this
      ensures Valid()
      ensures grid == DrawnGrid(old(grid), locations, start, goal)
    {
      var i := 0;
      while i < |locations|
        invariant 0 <= i <= |locations|
        invariant Valid()
        invariant forall r, c :: 0 <= r < rows && 0 <= c < columns ==>
                    grid[r][c] == DrawnCell(old(grid)[r][c], Location(r, c), locations[..i], start, goal)
      {
        var location := locations[i];
        grid := SetCell(grid, location, Path);
        grid := SetCell(grid, start, Start);
        grid := SetCell(grid, goal, Goal);
        forall r, c | 0 <= r < rows && 0 <= c < columns
          ensures grid[r][c] == DrawnCell(old(grid)[r][c], Location(r, c), locations[..i + 1], start, goal)
        {
          DrawnCellStep(old(grid)[r][c], Location(r, c), locations, i, start, goal);
        }
        i := i + 1;
      }
      assert locations[..i] == locations;
      SameCells(grid, DrawnGrid(old(grid), locations, start, goal));
    }

    /** The `for next_location in ...` loop of `solve`, over the open
      * neighbours `nextLocations` of the end of `path`, just dequeued from
      * `queue0` (leaving `queue`): each one not yet visited is marked visited,
      * and `path` extended by it joins the back of the queue. Afterwards the
      * end of `path` counts as expanded and the search invariant holds again. */
    method VisitNeighbours(ghost g0: seq<seq<Cell>>, ghost queue0: seq<seq<Location>>, path: seq<Location>,
                           nextLocations: seq<Location>, queue: seq<seq<Location>>, visited: set<Location>,
                           ghost expanded: set<Location>)
      returns (queue': seq<seq<Location>>, visited': set<Location>)
      requires Bfs.Inv(g0, start, queue0, expanded, visited)
      requires |queue0| > 0 && path == queue0[0] && queue == queue0[1..]
      requires NeighbourList(g0, Last(path), nextLocations)
      ensures Bfs.Inv(g0, start, queue', expanded + {Last(path)}, visited')
      ensures forall y :: y in visited' <==> y in visited || y in nextLocations
      ensures queue' == queue + Bfs.NewPaths(path, nextLocations, visited)
      ensures forall k :: |queue| <= k < |queue'| ==>
                |queue'[k]| > 0 && queue'[k] == path + [Last(queue'[k])]
                && Last(queue'[k]) in nextLocations && Last(queue'[k]) !in visited
      ensures |queue'| - |queue| == |visited'| - |visited|
    {
      Bfs.VisitBegin(g0, start, queue0, expanded, visited);
      queue', visited' := queue, visited;
      var i := 0;
      while i < |nextLocations|
        invariant 0 <= i <= |nextLocations|
        invariant Bfs.Visiting(g0, start, expanded, path, queue, visited, nextLocations[..i], queue', visited')
      {
        var nextLocation := nextLocations[i];
        assert nextLocations[..i + 1] == nextLocations[..i] + [nextLocation];
        if nextLocation !in visited' {
          Bfs.VisitNew(g0, start, expanded, path, queue, visited, nextLocations[..i], queue', visited', nextLocation);
          visited' := visited' + {nextLocation};
          var newPath := path + [nextLocation];
          queue' := queue' + [newPath];
        } else {
          Bfs.VisitOld(g0, start, expanded, path, queue, visited, nextLocations[..i], queue', visited', nextLocation);
        }
        i := i + 1;
      }
      assert nextLocations[..i] == nextLocations;
      Bfs.VisitEnd(g0, start, expanded, path, queue, visited, nextLocations, queue', visited');
    }

    /** Breadth-first search from the start, run until the queue is empty.
      * When the goal is dequeued (at most once) its path is drawn; that path
      * is returned. It is a shortest path from start to goal, and no path is
      * drawn only when the goal cannot be reached. At most one path per cell
      * of the grid is dequeued. The search does not stop at the goal, and
      * the "No solution" report after the loop is reached whatever was
      * drawn: `saysNoSolution` always holds. `draws` counts the calls of
      * `DrawPath`. */
    method Solve() returns (drawn: Option<seq<Location>>, saysNoSolution: bool, ghost dequeues: nat, ghost draws: nat)
      requires Valid()
      modifies this
      ensures Valid()
      ensures drawn.Some? ==> Bfs.ShortestPath(old(grid), start, goal, drawn.value)
                              && grid == DrawnGrid(old(grid), drawn.value, start, goal)
      ensures drawn.None? ==> grid == old(grid) && Bfs.Unreachable(old(grid), start, goal)
      ensures drawn == Bfs.Search(old(grid), rows, columns, goal, [[start]], {start})
      ensures saysNoSolution
      ensures dequeues <= rows * columns
      ensures draws == if drawn.Some? then 1 else 0
    {
      ghost var g0 := grid;
      var queue: seq<seq<Location>> := [[start]];
      var visited: set<Location> := {start};
      ghost var expanded: set<Location> := {};
      drawn := None;
      dequeues, draws := 0, 0;
      Bfs.InitInv(g0, start);
      ghost var result := Bfs.Search(g0, rows, columns, goal, queue, visited);
      while |queue| > 0
        invariant Valid() && Shaped(g0, rows, columns) && Open(g0, goal)
        invariant Bfs.Inv(g0, start, queue, expanded, visited)
        invariant if drawn.None? then Bfs.Pending(g0, rows, columns, goal, queue, visited, result) else drawn == result
        invariant drawn.Some? <==> goal in expanded
        invariant drawn.None? ==> grid == g0
        invariant drawn.Some? ==> Bfs.ShortestPath(g0, start, goal, drawn.value)
                                  && grid == DrawnGrid(g0, drawn.value, start, goal)
        invariant dequeues + |queue| == |visited|
        invariant draws == if drawn.Some? then 1 else 0
        decreases rows * columns - |visited|, |queue|
      {
        OpenCount(g0, rows, columns, visited);
        ghost var queueBefore, visitedBefore := queue, visited;
        var path := queue[0];
        queue := queue[1..];
        var currentLocation := path[|path| - 1];
        assert currentLocation == Last(path) && currentLocation !in expanded;
        dequeues := dequeues + 1;

        if GoalTest(currentLocation) {
          Bfs.PendingOutcome(g0, rows, columns, goal, queueBefore, visitedBefore, result);
          DrawPath(path);
          drawn := Some(path);
          draws := draws + 1;
        }
        assert Open(g0, currentLocation);
        if drawn.Some? {
          DrawnNeighbours(g0, drawn.value, start, goal, currentLocation);
        }

        var next := FindNextPossibleLocations(currentLocation);
        queue, visited := VisitNeighbours(g0, queueBefore, path, next.value, queue, visited, expanded);
        if drawn.None? {
          Bfs.PendingStep(g0, rows, columns, goal, queueBefore, visitedBefore, next.value, visited, result);
        }
        expanded := expanded + {currentLocation};
      }
      assert queue == [];
      if drawn.None? {
        Bfs.PendingOutcome(g0, rows, columns, goal, queue, visited, result);
        Bfs.ExhaustedUnreachable(g0, start, expanded, visited, goal);
      }
      OpenCount(g0, rows, columns, visited);
      saysNoSolution := true;
    }

    /** The grid as text, `__str__`: the glyphs of each row followed by a
      * newline. */
    method ToString() returns (output: string)
      requires Valid()
      ensures output == Lines(grid)
      ensures |output| == rows * (columns + 1)
    {
      output := "";
      var i := 0;
      while i < |grid|
        invariant 0 <= i <= rows
        invariant output == Lines(grid[..i])
      {
        assert grid[..i + 1][..i] == grid[..i];
        output := output + RowText(grid[i]) + "\n";
        i := i + 1;
      }
      assert grid[..i] == grid;
      LinesLength(grid, columns);
    }
  }

  /** The one-cell maze, whose only cell is both start and goal, is
    * solvable: `Solve` draws the one-location walk and still reports no
    * solution. */
  method OneCellSolve() returns (drawn: Option<seq<Location>>, saysNoSolution: bool)
    ensures drawn == Some([Location(0, 0)]) && saysNoSolution
  {
    var m := new Maze(1, 1, [[false]]);
    ghost var dequeues, draws;
    drawn, saysNoSolution, dequeues, draws := m.Solve();
  }

  /** The text of `g`, one newline-terminated line of glyphs per row. */
  function Lines(g: seq<seq<Cell>>): string
  {
    if |g| == 0 then "" else Lines(g[..|g| - 1]) + RowText(g[|g| - 1]) + "\n"
  }

  lemma {:induction false} LinesLength(g: seq<seq<Cell>>, w: int)
    requires forall r :: 0 <= r < |g| ==> |g[r]| == w
    ensures |Lines(g)| == |g| * (w + 1)
  {
    if |g| > 0 {
      LinesLength(g[..|g| - 1], w);
    }
  }

  /** In the text of a grid whose rows all have `w` cells, row `r` occupies
    * the `w + 1` characters from `r * (w + 1)` on: its glyphs, then a newline. */
  lemma {:induction false} LinesRow(g: seq<seq<Cell>>, w: int, r: int)
    requires forall r :: 0 <= r < |g| ==> |g[r]| == w
    requires 0 <= r < |g|
    ensures 0 <= r * (w + 1) && (r + 1) * (w + 1) <= |Lines(g)|
    ensures Lines(g)[r * (w + 1)..(r + 1) * (w + 1)] == RowText(g[r]) + "\n"
  {
    var n := |g|;
    var init := g[..n - 1];
    LinesLength(init, w);
    LinesLength(g, w);
    if r < n - 1 {
      LinesRow(init, w, r);
      assert init[r] == g[r];
    } else {
      assert |Lines(init)| == r * (w + 1);
    }
  }
}
