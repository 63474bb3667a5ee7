/** Cells, locations and the grid relations shared by both maze implementations:
  * the four-directional neighbour enumeration, walks through open cells, and
  * the rendering glyph of each cell. */
module Grid {

  datatype Option<+T> = None | Some(value: T)

  /** The role of one cell of the maze. */
  datatype Cell = Empty | Blocked | Start | Goal | Path

  /** A (row, column) coordinate; equality is by value. */
  datatype Location = Location(row: int, column: int)

  /** The one-character string value each cell kind carries in the source enum. */
  function Glyph(c: Cell): char
  {
    match c
    case Empty => ' '
    case Blocked => 'X'
    case Start => 'S'
    case Goal => 'G'
    case Path => '#'
  }

  lemma GlyphsDistinct(a: Cell, b: Cell)
    ensures Glyph(a) == Glyph(b) <==> a == b
    ensures Glyph(a) != '\n'
  {
  }

  /** `g` has exactly `rows` rows of `columns` entries each. */
  predicate Shaped<T>(g: seq<seq<T>>, rows: int, columns: int)
  {
    |g| == rows && forall r :: 0 <= r < |g| ==> |g[r]| == columns
  }

  predicate InBounds(rows: int, columns: int, l: Location)
  {
    0 <= l.row < rows && 0 <= l.column < columns
  }

  /** The cell at `l` exists and is not blocked: a location a path may use. */
  ghost predicate Open(g: seq<seq<Cell>>, l: Location)
  {
    0 <= l.row < |g| && 0 <= l.column < |g[l.row]| && g[l.row][l.column] != Blocked
  }

  function Abs(x: int): nat
  {
    if x < 0 then -x else x
  }

  function Manhattan(a: Location, b: Location): nat
  {
    Abs(a.row - b.row) + Abs(a.column - b.column)
  }

  /** Four-directional adjacency: the two locations differ by one step in one axis. */
  ghost predicate Adjacent(a: Location, b: Location)
  {
    Manhattan(a, b) == 1
  }

  /** Position of the direction from `from` to `to` in the enumeration order
    * down, up, right, left. */
  function Rank(from: Location, to: Location): nat
  {
    if to == Location(from.row + 1, from.column) then 0
    else if to == Location(from.row - 1, from.column) then 1
    else if to == Location(from.row, from.column + 1) then 2
    else 3
  }

  lemma AdjacentCases(a: Location, b: Location)
    requires Adjacent(a, b)
    ensures b == Location(a.row + 1, a.column) || b == Location(a.row - 1, a.column)
         || b == Location(a.row, a.column + 1) || b == Location(a.row, a.column - 1)
  {
  }

  /** `ns` lists exactly the open neighbours of `ml`, each once, in the order
    * down, up, right, left. */
  ghost predicate NeighbourList(g: seq<seq<Cell>>, ml: Location, ns: seq<Location>)
  {
    (forall k :: 0 <= k < |ns| ==> Open(g, ns[k]) && Adjacent(ml, ns[k]))
    && (forall y {:trigger Adjacent(ml, y)} :: Open(g, y) && Adjacent(ml, y) ==> y in ns)
    && (forall i, j :: 0 <= i < j < |ns| ==> Rank(ml, ns[i]) < Rank(ml, ns[j]))
  }

  /** The candidate enumeration of an unblocked location: each of the four
    * directions, kept when it passes that direction's bounds test and its
    * cell is not blocked. */
  function Neighbours(g: seq<seq<Cell>>, rows: int, columns: int, ml: Location): (ns: seq<Location>)
    requires Shaped(g, rows, columns) && InBounds(rows, columns, ml)
    ensures NeighbourList(g, ml, ns)
    ensures |ns| <= 4
  {
    var down := Candidate(g, ml.row + 1 < rows, Location(ml.row + 1, ml.column));
    var up := Candidate(g, ml.row - 1 >= 0, Location(ml.row - 1, ml.column));
    var right := Candidate(g, ml.column + 1 < columns, Location(ml.row, ml.column + 1));
    var left := Candidate(g, ml.column - 1 >= 0, Location(ml.row, ml.column - 1));
    NeighboursListed(g, ml, down, up, right, left);
    down + up + right + left
  }

  /** The one-direction list: `l` when the bounds test `inside` passes and
    * its cell is not blocked, nothing otherwise. */
  function Candidate(g: seq<seq<Cell>>, inside: bool, l: Location): seq<Location>
    requires inside ==> 0 <= l.row < |g| && 0 <= l.column < |g[l.row]|
  {
    if inside && g[l.row][l.column] != Blocked then [l] else []
  }

  /** Kept exactly when open. */
  ghost predicate KeptIfOpen(g: seq<seq<Cell>>, l: Location, c: seq<Location>)
  {
    c == if Open(g, l) then [l] else []
  }

  /** The four one-direction lists together list exactly the open neighbours,
    * in direction order. */
  lemma NeighboursListed(g: seq<seq<Cell>>, ml: Location,
                         down: seq<Location>, up: seq<Location>, right: seq<Location>, left: seq<Location>)
    requires KeptIfOpen(g, Location(ml.row + 1, ml.column), down)
    requires KeptIfOpen(g, Location(ml.row - 1, ml.column), up)
    requires KeptIfOpen(g, Location(ml.row, ml.column + 1), right)
    requires KeptIfOpen(g, Location(ml.row, ml.column - 1), left)
    ensures NeighbourList(g, ml, down + up + right + left)
    ensures |down + up + right + left| <= 4
  {
    CandidatesSound(g, ml, down, up, right, left);
    CandidatesComplete(g, ml, down, up, right, left);
    CandidatesOrdered(ml, down, up, right, left);
  }

  lemma CandidatesSound(g: seq<seq<Cell>>, ml: Location,
                         down: seq<Location>, up: seq<Location>, right: seq<Location>, left: seq<Location>)
    requires KeptIfOpen(g, Location(ml.row + 1, ml.column), down)
    requires KeptIfOpen(g, Location(ml.row - 1, ml.column), up)
    requires KeptIfOpen(g, Location(ml.row, ml.column + 1), right)
    requires KeptIfOpen(g, Location(ml.row, ml.column - 1), left)
    ensures OpenNeighbours(g, ml, down + up + right + left)
  {
    KeptIsNeighbour(g, ml, Location(ml.row + 1, ml.column), down);
    KeptIsNeighbour(g, ml, Location(ml.row - 1, ml.column), up);
    KeptIsNeighbour(g, ml, Location(ml.row, ml.column + 1), right);
    KeptIsNeighbour(g, ml, Location(ml.row, ml.column - 1), left);
    OpenNeighboursAppend(g, ml, down, up);
    OpenNeighboursAppend(g, ml, down + up, right);
    OpenNeighboursAppend(g, ml, down + up + right, left);
  }

  /** Every location of `ns` is an open neighbour of `ml`. */
  ghost predicate OpenNeighbours(g: seq<seq<Cell>>, ml: Location, ns: seq<Location>)
  {
    forall k :: 0 <= k < |ns| ==> Open(g, ns[k]) && Adjacent(ml, ns[k])
  }

  lemma KeptIsNeighbour(g: seq<seq<Cell>>, ml: Location, l: Location, c: seq<Location>)
    requires KeptIfOpen(g, l, c) && Manhattan(ml, l) == 1
    ensures OpenNeighbours(g, ml, c)
  {
  }

  lemma OpenNeighboursAppend(g: seq<seq<Cell>>, ml: Location, xs: seq<Location>, ys: seq<Location>)
    requires OpenNeighbours(g, ml, xs) && OpenNeighbours(g, ml, ys)
    ensures OpenNeighbours(g, ml, xs + ys)
  {
    var zs := xs + ys;
    forall k | 0 <= k < |zs| ensures zs[k] == if k < |xs| then xs[k] else ys[k - |xs|] {
    }
  }

  lemma CandidatesComplete(g: seq<seq<Cell>>, ml: Location,
                         down: seq<Location>, up: seq<Location>, right: seq<Location>, left: seq<Location>)
    requires KeptIfOpen(g, Location(ml.row + 1, ml.column), down)
    requires KeptIfOpen(g, Location(ml.row - 1, ml.column), up)
    requires KeptIfOpen(g, Location(ml.row, ml.column + 1), right)
    requires KeptIfOpen(g, Location(ml.row, ml.column - 1), left)
    ensures forall y {:trigger Adjacent(ml, y)} :: Open(g, y) && Adjacent(ml, y) ==> y in down + up + right + left
  {
    forall y | Open(g, y) && Adjacent(ml, y) ensures y in down + up + right + left {
      AdjacentCases(ml, y);
    }
  }

  /** Nothing, or the location `l` alone. */
  ghost predicate AtMost(l: Location, c: seq<Location>)
  {
    c == [] || c == [l]
  }

  lemma CandidatesOrdered(ml: Location, down: seq<Location>, up: seq<Location>, right: seq<Location>,
                          left: seq<Location>)
    requires AtMost(Location(ml.row + 1, ml.column), down)
    requires AtMost(Location(ml.row - 1, ml.column), up)
    requires AtMost(Location(ml.row, ml.column + 1), right)
    requires AtMost(Location(ml.row, ml.column - 1), left)
    ensures RanksIncrease(ml, down + up + right + left)
  {
    assert [] + down == down;
    RanksIncreaseOnAppend(ml, [], down, Location(ml.row + 1, ml.column), 0);
    RanksIncreaseOnAppend(ml, down, up, Location(ml.row - 1, ml.column), 1);
    RanksIncreaseOnAppend(ml, down + up, right, Location(ml.row, ml.column + 1), 2);
    RanksIncreaseOnAppend(ml, down + up + right, left, Location(ml.row, ml.column - 1), 3);
  }

  ghost predicate RanksIncrease(ml: Location, ns: seq<Location>)
  {
    forall i, j :: 0 <= i < j < |ns| ==> Rank(ml, ns[i]) < Rank(ml, ns[j])
  }

  /** Every location of `ns` has a rank below `k`. */
  ghost predicate RanksBelow(ml: Location, ns: seq<Location>, k: int)
  {
    forall i :: 0 <= i < |ns| ==> Rank(ml, ns[i]) < k
  }

  /** Appending nothing or one location of rank `k` to increasing ranks
    * below `k` keeps them increasing. */
  lemma RanksIncreaseOnAppend(ml: Location, xs: seq<Location>, ys: seq<Location>, l: Location, k: int)
    requires RanksIncrease(ml, xs) && RanksBelow(ml, xs, k)
    requires AtMost(l, ys) && Rank(ml, l) == k
    ensures RanksIncrease(ml, xs + ys) && RanksBelow(ml, xs + ys, k + 1)
  {
    var zs := xs + ys;
    forall i | 0 <= i < |zs| ensures Rank(ml, zs[i]) <= k && (i < |xs| ==> zs[i] == xs[i]) {
    }
  }

  /** What a cell holds after construction, in both implementations: the
    * goal stamp over the start stamp over the random fill, where
    * `blocks[r][c]` says whether the draw for cell (r, c) fell below the
    * sparseness. */
  ghost function ConstructedCell(blocks: seq<seq<bool>>, start: Location, goal: Location, l: Location): Cell
    requires 0 <= l.row < |blocks| && 0 <= l.column < |blocks[l.row]|
  {
    if l == goal then Goal
    else if l == start then Start
    else if blocks[l.row][l.column] then Blocked
    else Empty
  }

  /** Two grids of the same shape with the same cells are equal. */
  lemma SameCells(g: seq<seq<Cell>>, h: seq<seq<Cell>>)
    requires |g| == |h| && forall r :: 0 <= r < |g| ==> |g[r]| == |h[r]|
    requires forall r, c :: 0 <= r < |g| && 0 <= c < |g[r]| ==> g[r][c] == h[r][c]
    ensures g == h
  {
    forall r | 0 <= r < |g| ensures g[r] == h[r] {
      assert forall c :: 0 <= c < |g[r]| ==> g[r][c] == h[r][c];
    }
  }

  /** `g` with the single cell at `l` replaced by `v`. */
  function SetCell(g: seq<seq<Cell>>, l: Location, v: Cell): (h: seq<seq<Cell>>)
    requires 0 <= l.row < |g| && 0 <= l.column < |g[l.row]|
    ensures |h| == |g| && forall r :: 0 <= r < |g| ==> |h[r]| == |g[r]|
    ensures forall r, c :: 0 <= r < |g| && 0 <= c < |g[r]| ==>
              h[r][c] == if Location(r, c) == l then v else g[r][c]
  {
    g[l.row := g[l.row][l.column := v]]
  }

  function Last(p: seq<Location>): Location
    requires |p| > 0
  {
    p[|p| - 1]
  }

  /** A non-empty sequence of open locations, each adjacent to the next. */
  ghost predicate IsWalk(g: seq<seq<Cell>>, w: seq<Location>)
  {
    |w| >= 1
    && (forall k :: 0 <= k < |w| ==> Open(g, w[k]))
    && (forall k :: 0 < k < |w| ==> Adjacent(w[k - 1], w[k]))
  }

  ghost predicate WalkFrom(g: seq<seq<Cell>>, s: Location, w: seq<Location>)
  {
    IsWalk(g, w) && w[0] == s
  }

  /** No location occurs twice. */
  ghost predicate Simple(w: seq<Location>)
  {
    forall i, j :: 0 <= i < j < |w| ==> w[i] != w[j]
  }

  /** No walk from `s` reaches the end of `p` with fewer locations than `p`. */
  ghost predicate Shortest(g: seq<seq<Cell>>, s: Location, p: seq<Location>)
    requires |p| > 0
  {
    forall w {:trigger WalkFrom(g, s, w)} :: WalkFrom(g, s, w) && Last(w) == Last(p) ==> |p| <= |w|
  }

  /** Every location of the grid. */
  ghost function AllCells(rows: int, columns: int): set<Location>
  {
    set r, c | 0 <= r < rows && 0 <= c < columns :: Location(r, c)
  }

  lemma {:induction false} WalkPrefix(g: seq<seq<Cell>>, s: Location, w: seq<Location>)
    requires WalkFrom(g, s, w) && |w| >= 2
    ensures WalkFrom(g, s, w[..|w| - 1])
    ensures Adjacent(Last(w[..|w| - 1]), Last(w))
  {
    var u := w[..|w| - 1];
    assert forall k :: 0 <= k < |u| ==> u[k] == w[k];
    assert Adjacent(w[|w| - 2], w[|w| - 1]);
  }

  lemma {:induction false} WalkExtend(g: seq<seq<Cell>>, s: Location, w: seq<Location>, y: Location)
    requires WalkFrom(g, s, w) && Open(g, y) && Adjacent(Last(w), y)
    ensures WalkFrom(g, s, w + [y]) && Last(w + [y]) == y
  {
    var u := w + [y];
    assert forall k :: 0 <= k < |w| ==> u[k] == w[k];
  }

  /** Every step changes the Manhattan distance to `b` by one, so a walk
    * from `a` to `b` has at least that distance plus one locations. */
  lemma {:induction false} WalkAtLeastManhattan(g: seq<seq<Cell>>, a: Location, w: seq<Location>)
    requires WalkFrom(g, a, w)
    ensures |w| >= Manhattan(a, Last(w)) + 1
  {
    if |w| >= 2 {
      var u := w[..|w| - 1];
      WalkPrefix(g, a, w);
      WalkAtLeastManhattan(g, a, u);
    }
  }

  /** The glyphs of one row, side by side (a row joined with the empty separator). */
  function RowText(row: seq<Cell>): (t: string)
    ensures |t| == |row|
    ensures forall c :: 0 <= c < |row| ==> t[c] == Glyph(row[c])
  {
    if |row| == 0 then "" else [Glyph(row[0])] + RowText(row[1..])
  }

  /** Every location of row `r`. */
  ghost function RowCells(r: int, columns: int): set<Location>
  {
    set c | 0 <= c < columns :: Location(r, c)
  }

  lemma {:induction false} RowCellsCount(r: int, columns: int)
    requires columns >= 0
    ensures |RowCells(r, columns)| == columns
  {
    if columns > 0 {
      assert RowCells(r, columns) == RowCells(r, columns - 1) + {Location(r, columns - 1)};
      RowCellsCount(r, columns - 1);
      AddNew(RowCells(r, columns - 1), Location(r, columns - 1));
    }
  }

  /** The cells of a grid are those of all rows but the last, and those of
    * the last row. */
  lemma LastRowSplit(rows: int, columns: int)
    requires rows > 0
    ensures AllCells(rows, columns) == AllCells(rows - 1, columns) + RowCells(rows - 1, columns)
    ensures AllCells(rows - 1, columns) * RowCells(rows - 1, columns) == {}
  {
    var all, above, last := AllCells(rows, columns), AllCells(rows - 1, columns), RowCells(rows - 1, columns);
    forall l | l in all ensures l in above || l in last {
      assert l.row < rows - 1 ==> l in above;
      assert l.row == rows - 1 ==> l in last;
    }
    forall l | l in above + last ensures l in all {
    }
  }

  /** A rows x columns grid has rows * columns locations. */
  lemma {:induction false} CellCount(rows: int, columns: int)
    requires rows >= 0 && columns >= 0
    ensures |AllCells(rows, columns)| == rows * columns
  {
    if rows > 0 {
      var above, last := AllCells(rows - 1, columns), RowCells(rows - 1, columns);
      LastRowSplit(rows, columns);
      CellCount(rows - 1, columns);
      RowCellsCount(rows - 1, columns);
      assert |above + last| == |above| + |last|;
      assert rows * columns == (rows - 1) * columns + columns;
    }
  }

  lemma OpenIsCell(g: seq<seq<Cell>>, rows: int, columns: int, l: Location)
    requires Shaped(g, rows, columns) && Open(g, l)
    ensures l in AllCells(rows, columns)
  {
    assert l == Location(l.row, l.column);
  }

  lemma OpenAreCells(g: seq<seq<Cell>>, rows: int, columns: int, s: set<Location>)
    requires Shaped(g, rows, columns) && forall l :: l in s ==> Open(g, l)
    ensures s <= AllCells(rows, columns)
  {
    forall l | l in s ensures l in AllCells(rows, columns) {
      OpenIsCell(g, rows, columns, l);
    }
  }

  /** A set of open locations of a rows x columns grid has at most
    * rows * columns members. */
  lemma OpenCount(g: seq<seq<Cell>>, rows: int, columns: int, s: set<Location>)
    requires Shaped(g, rows, columns) && columns >= 0 && forall l :: l in s ==> Open(g, l)
    ensures |s| <= rows * columns
  {
    OpenAreCells(g, rows, columns, s);
    SubsetCardinality(s, AllCells(rows, columns));
    CellCount(rows, columns);
  }

  lemma {:induction false} SubsetCardinality<T>(a: set<T>, b: set<T>)
    requires a <= b
    ensures |a| <= |b|
  {
    if a != {} {
      var x :| x in a;
      SubsetCardinality(a - {x}, b - {x});
    }
  }

  lemma AddNew<T>(s: set<T>, x: T)
    requires x !in s
    ensures |s + {x}| == |s| + 1
  {
  }
}
