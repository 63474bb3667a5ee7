/** The breadth-first search that both maze solvers run, stated once: the
  * invariant relating the queue of paths-so-far, the visited set and the set
  * of locations already expanded, and one lemma per step of the search that
  * preserves it. Walks are taken in a fixed grid `g`; only whether a cell is
  * blocked matters to them. */
module Bfs {
  import opened Grid

  /** Every location some walk from `s` of fewer than `n` locations reaches has
    * been expanded already. */
  ghost predicate ExpandedBelow(g: seq<seq<Cell>>, s: Location, expanded: set<Location>, n: int)
  {
    forall w {:trigger WalkFrom(g, s, w)} :: WalkFrom(g, s, w) && |w| < n ==> Last(w) in expanded
  }

  /** Expanding a location visited each of its open neighbours. */
  ghost predicate Closed(g: seq<seq<Cell>>, expanded: set<Location>, visited: set<Location>)
  {
    forall x, y {:trigger Adjacent(x, y)} :: x in expanded && Open(g, y) && Adjacent(x, y) ==> y in visited
  }

  /** A path-so-far: a simple walk from `s` through visited locations that no
    * walk to the same end undercuts. */
  ghost predicate QueuedPath(g: seq<seq<Cell>>, s: Location, visited: set<Location>, p: seq<Location>)
  {
    WalkFrom(g, s, p) && Simple(p) && Shortest(g, s, p)
    && forall k :: 0 <= k < |p| ==> p[k] in visited
  }

  ghost predicate Common(g: seq<seq<Cell>>, s: Location, expanded: set<Location>, visited: set<Location>)
  {
    Open(g, s) && s in visited && expanded <= visited
    && (forall v :: v in visited ==> Open(g, v))
    && Closed(g, expanded, visited)
  }

  /** Queued paths end at distinct unexpanded locations (each location is
    * queued at most once), and their lengths never decrease along the queue
    * and lie in `lo` or `lo + 1`. */
  ghost predicate Queued(g: seq<seq<Cell>>, s: Location, q: seq<seq<Location>>,
                         expanded: set<Location>, visited: set<Location>, lo: int)
  {
    (forall i :: 0 <= i < |q| ==> QueuedPath(g, s, visited, q[i]) && Last(q[i]) !in expanded)
    && (forall i, j :: 0 <= i < j < |q| ==> Last(q[i]) != Last(q[j]))
    && (forall i, j :: 0 <= i <= j < |q| ==> |q[i]| <= |q[j]|)
    && (forall i :: 0 <= i < |q| ==> lo <= |q[i]| <= lo + 1)
  }

  /** The locations the queued paths end at. */
  function Ends(q: seq<seq<Location>>): set<Location>
  {
    if |q| == 0 then {} else (if |q[0]| > 0 then {Last(q[0])} else {}) + Ends(q[1..])
  }

  lemma {:induction false} EndsAppend(q: seq<seq<Location>>, p: seq<Location>)
    requires |p| > 0
    ensures Ends(q + [p]) == Ends(q) + {Last(p)}
  {
    if |q| > 0 {
      assert (q + [p])[1..] == q[1..] + [p];
      EndsAppend(q[1..], p);
    }
  }

  lemma {:induction false} EndsExclude(q: seq<seq<Location>>, t: Location)
    requires forall i :: 0 <= i < |q| && |q[i]| > 0 ==> Last(q[i]) != t
    ensures t !in Ends(q)
  {
    if |q| > 0 {
      assert forall i :: 0 <= i < |q| - 1 ==> q[1..][i] == q[i + 1];
      EndsExclude(q[1..], t);
    }
  }

  /** Every visited location outside `done` is the end of a queued path. */
  ghost predicate Covers(q: seq<seq<Location>>, done: set<Location>, visited: set<Location>)
  {
    visited <= done + Ends(q)
  }

  function HeadLength(q: seq<seq<Location>>): nat
  {
    if |q| > 0 then |q[0]| else 0
  }

  /** The invariant of the search loop, between two dequeues. */
  ghost predicate Inv(g: seq<seq<Cell>>, s: Location, q: seq<seq<Location>>,
                      expanded: set<Location>, visited: set<Location>)
  {
    Common(g, s, expanded, visited)
    && Queued(g, s, q, expanded, visited, HeadLength(q))
    && ExpandedBelow(g, s, expanded, HeadLength(q))
    && Covers(q, expanded, visited)
  }

  /** The invariant while the neighbours of the end of `p`, just dequeued, are
    * being visited; `q` is the rest of the queue. */
  ghost predicate Expanding(g: seq<seq<Cell>>, s: Location, p: seq<Location>, q: seq<seq<Location>>,
                            expanded: set<Location>, visited: set<Location>)
  {
    Common(g, s, expanded, visited)
    && QueuedPath(g, s, visited, p) && Last(p) !in expanded
    && Queued(g, s, q, expanded, visited, |p|)
    && (forall i :: 0 <= i < |q| ==> Last(q[i]) != Last(p))
    && ExpandedBelow(g, s, expanded, |p|)
    && Covers(q, expanded + {Last(p)}, visited)
  }

  /** The search starts from the one-location path at `s`, with `s` visited. */
  lemma InitInv(g: seq<seq<Cell>>, s: Location)
    requires Open(g, s)
    ensures Inv(g, s, [[s]], {}, {s})
  {
    var p := [s];
    assert WalkFrom(g, s, p);
    assert Shortest(g, s, p);
    var q := [p];
    assert Last(q[0]) == s;
  }

  /** Taking the head off the queue. */
  lemma DequeueStep(g: seq<seq<Cell>>, s: Location, q: seq<seq<Location>>,
                    expanded: set<Location>, visited: set<Location>)
    requires Inv(g, s, q, expanded, visited) && |q| > 0
    ensures Expanding(g, s, q[0], q[1..], expanded, visited)
  {
    var p, rest := q[0], q[1..];
    assert forall i :: 0 <= i < |rest| ==> rest[i] == q[i + 1];
    forall i | 0 <= i < |rest| ensures Last(rest[i]) != Last(p) {
      assert Last(q[0]) != Last(q[i + 1]);
    }
  }

  /** When everything reachable in fewer than |p| locations has been
    * expanded, every location a walk of at most |p| locations reaches is
    * visited already. */
  lemma ShortWalkEndsVisited(g: seq<seq<Cell>>, s: Location, p: seq<Location>,
                             expanded: set<Location>, visited: set<Location>, w: seq<Location>)
    requires Common(g, s, expanded, visited) && ExpandedBelow(g, s, expanded, |p|)
    requires WalkFrom(g, s, w) && |w| <= |p|
    ensures Last(w) in visited
  {
    if |w| >= 2 {
      WalkPrefix(g, s, w);
      var u := w[..|w| - 1];
      assert Last(u) in expanded;
    }
  }

  lemma QueuedPathGrows(g: seq<seq<Cell>>, s: Location, p: seq<Location>,
                        visited: set<Location>, visited': set<Location>)
    requires QueuedPath(g, s, visited, p) && visited <= visited'
    ensures QueuedPath(g, s, visited', p)
  {
  }

  lemma QueuedGrows(g: seq<seq<Cell>>, s: Location, q: seq<seq<Location>>,
                    expanded: set<Location>, visited: set<Location>, visited': set<Location>, lo: int)
    requires Queued(g, s, q, expanded, visited, lo) && visited <= visited'
    ensures Queued(g, s, q, expanded, visited', lo)
  {
    forall i | 0 <= i < |q| ensures QueuedPath(g, s, visited', q[i]) {
      QueuedPathGrows(g, s, q[i], visited, visited');
    }
  }

  lemma QueuedAppend(g: seq<seq<Cell>>, s: Location, q: seq<seq<Location>>,
                     expanded: set<Location>, visited: set<Location>, lo: int, np: seq<Location>)
    requires Queued(g, s, q, expanded, visited, lo)
    requires QueuedPath(g, s, visited, np) && Last(np) !in expanded
    requires forall i :: 0 <= i < |q| ==> Last(q[i]) != Last(np) && |q[i]| <= |np|
    requires lo <= |np| <= lo + 1
    ensures Queued(g, s, q + [np], expanded, visited, lo)
  {
    var q' := q + [np];
    assert forall i :: 0 <= i < |q| ==> q'[i] == q[i];
    assert q'[|q|] == np;
  }

  /** `p` extended by an open neighbour `y` of its end that is not yet visited
    * is again a path-so-far once `y` is visited: no walk reaches `y` with
    * |p| locations or fewer. */
  lemma ExtendQueuedPath(g: seq<seq<Cell>>, s: Location, p: seq<Location>,
                         expanded: set<Location>, visited: set<Location>, y: Location)
    requires Common(g, s, expanded, visited) && ExpandedBelow(g, s, expanded, |p|)
    requires QueuedPath(g, s, visited, p)
    requires Open(g, y) && Adjacent(Last(p), y) && y !in visited
    ensures QueuedPath(g, s, visited + {y}, p + [y])
  {
    var np := p + [y];
    WalkExtend(g, s, p, y);
    forall w | WalkFrom(g, s, w) && Last(w) == Last(np) ensures |np| <= |w| {
      if |w| <= |p| {
        ShortWalkEndsVisited(g, s, p, expanded, visited, w);
      }
    }
    assert forall k :: 0 <= k < |p| ==> np[k] == p[k];
  }

  /** Visiting the open neighbour `y` of the end of `p`: it is marked visited
    * and `p` extended by `y` joins the back of the queue. */
  lemma DiscoverStep(g: seq<seq<Cell>>, s: Location, p: seq<Location>, q: seq<seq<Location>>,
                     expanded: set<Location>, visited: set<Location>, y: Location)
    requires Expanding(g, s, p, q, expanded, visited)
    requires Open(g, y) && Adjacent(Last(p), y) && y !in visited
    ensures Expanding(g, s, p, q + [p + [y]], expanded, visited + {y})
  {
    var visited' := visited + {y};
    var np := p + [y];
    var q' := q + [np];
    ExtendQueuedPath(g, s, p, expanded, visited, y);
    QueuedPathGrows(g, s, p, visited, visited');
    QueuedGrows(g, s, q, expanded, visited, visited', |p|);
    QueuedAppend(g, s, q, expanded, visited', |p|, np);
    assert forall i :: 0 <= i < |q| ==> q'[i] == q[i];
    assert Last(q'[|q|]) == y;
    EndsAppend(q, np);
  }

  /** Done with the end of `p`: every open neighbour of it is visited, so it
    * joins the expanded set. */
  lemma FinishStep(g: seq<seq<Cell>>, s: Location, p: seq<Location>, q: seq<seq<Location>>,
                   expanded: set<Location>, visited: set<Location>)
    requires Expanding(g, s, p, q, expanded, visited)
    requires forall y :: Open(g, y) && Adjacent(Last(p), y) ==> y in visited
    ensures Inv(g, s, q, expanded + {Last(p)}, visited)
  {
    var x := Last(p);
    var expanded' := expanded + {x};
    assert x in visited;
    assert Closed(g, expanded', visited);
    if |q| > 0 {
      assert forall i :: 0 <= i < |q| ==> |q[0]| <= |q[i]|;
      forall w | WalkFrom(g, s, w) && |w| < |q[0]| ensures Last(w) in expanded' {
        if |w| >= |p| {
          ShortWalkEndsVisited(g, s, p, expanded, visited, w);
          assert forall i :: 0 <= i < |q| ==> |q[i]| > |w|;
          assert forall i :: 0 <= i < |q| ==> Last(q[i]) != Last(w);
          EndsExclude(q, Last(w));
        }
      }
    }
  }

  /** The paths the visit of `ns` appends to the queue, in order: `p`
    * extended by each location of `ns` that is neither in `visited` nor
    * earlier in `ns`. */
  function NewPaths(p: seq<Location>, ns: seq<Location>, visited: set<Location>): seq<seq<Location>>
  {
    if ns == [] then []
    else
      var y := ns[|ns| - 1];
      var earlier := ns[..|ns| - 1];
      NewPaths(p, earlier, visited) + (if y in visited || y in earlier then [] else [p + [y]])
  }

  /** The state part-way through visiting the neighbours of the end of `p`,
    * dequeued with `q` left behind it, when the neighbours `done` have been
    * visited so far: the visited set grew from `visited` to `visited'` by
    * exactly the neighbours in `done`, and each one newly visited put `p`
    * extended by it at the back of the queue, now `q'`. */
  ghost predicate Visiting(g: seq<seq<Cell>>, s: Location, expanded: set<Location>, p: seq<Location>,
                           q: seq<seq<Location>>, visited: set<Location>, done: seq<Location>,
                           q': seq<seq<Location>>, visited': set<Location>)
  {
    Expanding(g, s, p, q', expanded, visited')
    && (forall y :: y in visited' <==> y in visited || y in done)
    && q' == q + NewPaths(p, done, visited)
    && (forall k :: |q| <= k < |q'| ==>
          |q'[k]| > 0 && q'[k] == p + [Last(q'[k])] && Last(q'[k]) in done && Last(q'[k]) !in visited)
    && |q'| - |q| == |visited'| - |visited|
  }

  /** Dequeuing the head `q[0]` starts the visit of its end's neighbours. */
  lemma VisitBegin(g: seq<seq<Cell>>, s: Location, q: seq<seq<Location>>,
                   expanded: set<Location>, visited: set<Location>)
    requires Inv(g, s, q, expanded, visited) && |q| > 0
    ensures Visiting(g, s, expanded, q[0], q[1..], visited, [], q[1..], visited)
  {
    DequeueStep(g, s, q, expanded, visited);
  }

  /** A neighbour `y` not yet visited is marked visited, and `p` extended by
    * it joins the back of the queue. */
  lemma VisitNew(g: seq<seq<Cell>>, s: Location, expanded: set<Location>, p: seq<Location>,
                 q: seq<seq<Location>>, visited: set<Location>, done: seq<Location>,
                 q': seq<seq<Location>>, visited': set<Location>, y: Location)
    requires Visiting(g, s, expanded, p, q, visited, done, q', visited')
    requires Open(g, y) && Adjacent(Last(p), y) && y !in visited'
    ensures Visiting(g, s, expanded, p, q, visited, done + [y], q' + [p + [y]], visited' + {y})
  {
    DiscoverStep(g, s, p, q', expanded, visited', y);
    AddNew(visited', y);
    var q'' := q' + [p + [y]];
    assert (done + [y])[..|done|] == done;
    assert forall k :: |q| <= k < |q'| ==> q''[k] == q'[k];
    assert Last(q''[|q'|]) == y;
  }

  /** A neighbour visited already changes nothing. */
  lemma VisitOld(g: seq<seq<Cell>>, s: Location, expanded: set<Location>, p: seq<Location>,
                 q: seq<seq<Location>>, visited: set<Location>, done: seq<Location>,
                 q': seq<seq<Location>>, visited': set<Location>, y: Location)
    requires Visiting(g, s, expanded, p, q, visited, done, q', visited')
    requires y in visited'
    ensures Visiting(g, s, expanded, p, q, visited, done + [y], q', visited')
  {
    assert (done + [y])[..|done|] == done;
  }

  /** Once every open neighbour of the end of `p` is done, that location is
    * expanded and the search invariant holds for the grown queue. */
  lemma VisitEnd(g: seq<seq<Cell>>, s: Location, expanded: set<Location>, p: seq<Location>,
                 q: seq<seq<Location>>, visited: set<Location>, done: seq<Location>,
                 q': seq<seq<Location>>, visited': set<Location>)
    requires Visiting(g, s, expanded, p, q, visited, done, q', visited')
    requires forall y :: Open(g, y) && Adjacent(Last(p), y) ==> y in done
    ensures Inv(g, s, q', expanded + {Last(p)}, visited')
  {
    FinishStep(g, s, p, q', expanded, visited');
  }

  /** The search as a function of the grid: the queue `q` and the visited
    * set `seen` are run until a dequeued path ends at `goal`, which is the
    * result, or until the queue is empty. Each dequeued path appends the
    * paths to its end's neighbours not yet visited, in the order the
    * neighbours are listed. A path that is empty or ends outside the grid is
    * dropped; the search from the start's one-location path never queues
    * one. */
  ghost function Search(g: seq<seq<Cell>>, rows: int, columns: int, goal: Location,
                        q: seq<seq<Location>>, seen: set<Location>): Option<seq<Location>>
    requires Shaped(g, rows, columns)
    decreases |AllCells(rows, columns) - seen|, |q|, 1
  {
    if q == [] then None
    else if |q[0]| == 0 || !InBounds(rows, columns, Last(q[0])) then Search(g, rows, columns, goal, q[1..], seen)
    else if Last(q[0]) == goal then Some(q[0])
    else Expand(g, rows, columns, goal, q, seen)
  }

  /** The search after dequeuing the head of `q`, whose end is not the goal:
    * the neighbours of that end not yet in `seen` are visited in the order
    * they are listed, and the search goes on. */
  ghost function Expand(g: seq<seq<Cell>>, rows: int, columns: int, goal: Location,
                        q: seq<seq<Location>>, seen: set<Location>): Option<seq<Location>>
    requires Shaped(g, rows, columns) && q != [] && |q[0]| > 0 && InBounds(rows, columns, Last(q[0]))
    decreases |AllCells(rows, columns) - seen|, |q|, 0
  {
    var ns := Neighbours(g, rows, columns, Last(q[0]));
    SearchAdvances(g, rows, columns, q, seen, ns);
    Search(g, rows, columns, goal, q[1..] + NewPaths(q[0], ns, seen), seen + (set y | y in ns))
  }

  /** Nothing is appended when every location of `ns` is visited already. */
  lemma {:induction false} NewPathsNone(p: seq<Location>, ns: seq<Location>, visited: set<Location>)
    requires forall k :: 0 <= k < |ns| ==> ns[k] in visited
    ensures NewPaths(p, ns, visited) == []
  {
    if ns != [] {
      NewPathsNone(p, ns[..|ns| - 1], visited);
    }
  }

  /** One step of `Search` either visits a new cell or shortens the queue. */
  lemma SearchAdvances(g: seq<seq<Cell>>, rows: int, columns: int, q: seq<seq<Location>>,
                       seen: set<Location>, ns: seq<Location>)
    requires Shaped(g, rows, columns) && q != []
    requires forall k :: 0 <= k < |ns| ==> Open(g, ns[k])
    ensures |AllCells(rows, columns) - (seen + (set y | y in ns))| < |AllCells(rows, columns) - seen|
            || (seen + (set y | y in ns) == seen && |q[1..] + NewPaths(q[0], ns, seen)| < |q|)
  {
    if forall k :: 0 <= k < |ns| ==> ns[k] in seen {
      NewPathsNone(q[0], ns, seen);
      assert seen + (set y | y in ns) == seen;
    } else {
      var k :| 0 <= k < |ns| && ns[k] !in seen;
      OpenIsCell(g, rows, columns, ns[k]);
      var left := AllCells(rows, columns) - seen;
      assert AllCells(rows, columns) - (seen + (set y | y in ns)) <= left - {ns[k]};
      SubsetCardinality(AllCells(rows, columns) - (seen + (set y | y in ns)), left - {ns[k]});
    }
  }

  /** The search with queue `q` and visited set `seen` ends in `r`. */
  ghost predicate Pending(g: seq<seq<Cell>>, rows: int, columns: int, goal: Location,
                          q: seq<seq<Location>>, seen: set<Location>, r: Option<seq<Location>>)
  {
    Shaped(g, rows, columns) && Search(g, rows, columns, goal, q, seen) == r
  }

  /** The search ends in `None` once the queue is empty, and in the head
    * path once that path ends at the goal. */
  lemma PendingOutcome(g: seq<seq<Cell>>, rows: int, columns: int, goal: Location,
                       q: seq<seq<Location>>, seen: set<Location>, r: Option<seq<Location>>)
    requires Pending(g, rows, columns, goal, q, seen, r)
    ensures q == [] ==> r == None
    ensures q != [] && |q[0]| > 0 && InBounds(rows, columns, Last(q[0])) && Last(q[0]) == goal ==> r == Some(q[0])
  {
  }

  /** Dequeuing a path that does not end at the goal and visiting the
    * neighbours of its end leaves the outcome of the search unchanged. */
  lemma PendingStep(g: seq<seq<Cell>>, rows: int, columns: int, goal: Location, q: seq<seq<Location>>,
                    seen: set<Location>, ns: seq<Location>, seen': set<Location>, r: Option<seq<Location>>)
    requires Pending(g, rows, columns, goal, q, seen, r) && q != []
    requires |q[0]| > 0 && InBounds(rows, columns, Last(q[0])) && Last(q[0]) != goal
    requires ns == Neighbours(g, rows, columns, Last(q[0]))
    requires forall y :: y in seen' <==> y in seen || y in ns
    ensures Pending(g, rows, columns, goal, q[1..] + NewPaths(q[0], ns, seen), seen', r)
  {
    SearchAdvances(g, rows, columns, q, seen, ns);
    assert seen' == seen + (set y | y in ns);
    assert Search(g, rows, columns, goal, q, seen) == Expand(g, rows, columns, goal, q, seen);
  }


  /** When the queue has run empty, every location reachable from `s` has
    * been expanded. */
  lemma {:induction false} ExhaustedReachesOnlyExpanded(g: seq<seq<Cell>>, s: Location,
                                                        expanded: set<Location>, visited: set<Location>,
                                                        w: seq<Location>)
    requires Inv(g, s, [], expanded, visited)
    requires WalkFrom(g, s, w)
    ensures Last(w) in expanded
  {
    assert visited <= expanded;
    if |w| >= 2 {
      var u := w[..|w| - 1];
      WalkPrefix(g, s, w);
      ExhaustedReachesOnlyExpanded(g, s, expanded, visited, u);
      assert Open(g, Last(w));
    }
  }

  /** `p` is a shortest path from `s` to `t`: a simple walk through open
    * cells, each step to an adjacent cell, that no other walk undercuts. */
  ghost predicate ShortestPath(g: seq<seq<Cell>>, s: Location, t: Location, p: seq<Location>)
  {
    WalkFrom(g, s, p) && Last(p) == t && Simple(p) && Shortest(g, s, p)
  }

  /** No walk from `s` through open cells ends at `t`. */
  ghost predicate Unreachable(g: seq<seq<Cell>>, s: Location, t: Location)
  {
    forall w {:trigger WalkFrom(g, s, w)} :: WalkFrom(g, s, w) ==> Last(w) != t
  }

  /** An exhausted search that never expanded `t` proves `t` unreachable. */
  lemma ExhaustedUnreachable(g: seq<seq<Cell>>, s: Location, expanded: set<Location>,
                             visited: set<Location>, t: Location)
    requires Inv(g, s, [], expanded, visited) && t !in expanded
    ensures Unreachable(g, s, t)
  {
    forall w | WalkFrom(g, s, w) ensures Last(w) != t {
      ExhaustedReachesOnlyExpanded(g, s, expanded, visited, w);
    }
  }

  /** With no blocked cell, every cell `t` is reached from the top-left
    * corner by a walk of `t.row + t.column` steps: down, then right. */
  lemma {:induction false} StaircaseWalk(g: seq<seq<Cell>>, rows: int, columns: int, t: Location)
    returns (w: seq<Location>)
    requires Shaped(g, rows, columns)
    requires forall r, c :: 0 <= r < rows && 0 <= c < columns ==> g[r][c] != Blocked
    requires InBounds(rows, columns, t)
    ensures WalkFrom(g, Location(0, 0), w) && Last(w) == t && |w| == t.row + t.column + 1
    decreases t.row + t.column
  {
    if t.column > 0 {
      var u := StaircaseWalk(g, rows, columns, Location(t.row, t.column - 1));
      WalkExtend(g, Location(0, 0), u, t);
      w := u + [t];
    } else if t.row > 0 {
      var u := StaircaseWalk(g, rows, columns, Location(t.row - 1, t.column));
      WalkExtend(g, Location(0, 0), u, t);
      w := u + [t];
    } else {
      w := [t];
    }
  }

  /** In a grid with no blocked cell, a shortest path from the top-left
    * corner has exactly one location more than the Manhattan distance it
    * covers. */
  lemma ShortestInOpenGrid(g: seq<seq<Cell>>, rows: int, columns: int, t: Location, p: seq<Location>)
    requires Shaped(g, rows, columns)
    requires forall r, c :: 0 <= r < rows && 0 <= c < columns ==> g[r][c] != Blocked
    requires ShortestPath(g, Location(0, 0), t, p)
    ensures |p| == Manhattan(Location(0, 0), t) + 1
  {
    WalkAtLeastManhattan(g, Location(0, 0), p);
    var w := StaircaseWalk(g, rows, columns, t);
  }
}
