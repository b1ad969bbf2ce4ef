/** The A* driver (internal/pathfinding/astar.go). The order in which the
    binary heap hands out nodes depends on floating-point F scores; here it is
    an input: the k-th pop takes the open-set entry at index
    `pops[k] % |open|`, or the root (index 0) once `pops` runs out. */
module Search {
  import opened Common
  import opened GridTypes

  /** The open set: the slice of node pointers behind `container/heap`,
      each pointer identified with its node's point. */
  class PriorityQueue {
    var items: seq<Point>

    constructor ()
      ensures items == []
    {
      items := [];
    }

    function Len(): (n: nat)
      reads this
      ensures n == |items|
    {
      |items|
    }

    method Swap(i: nat, j: nat)
      requires i < |items| && j < |items|
      modifies this
      ensures items == old(items)[i := old(items)[j]][j := old(items)[i]]
    {
      items := items[i := items[j]][j := items[i]];
    }

    /** Appends at the end. */
    method Push(x: Point)
      modifies this
      ensures items == old(items) + [x]
      ensures Len() == old(Len()) + 1
    {
      items := items + [x];
    }

    /** Removes and returns the last entry. */
    method Pop() returns (x: Point)
      requires |items| > 0
      modifies this
      ensures x == old(items)[|old(items)| - 1]
      ensures items == old(items)[..|old(items)| - 1]
      ensures Len() == old(Len()) - 1
    {
      var n := |items|;
      x := items[n - 1];
      items := items[..n - 1];
    }
  }

  /** The points of the open set, in slice order. */
  method GetOpenSetPoints(openSet: PriorityQueue) returns (points: seq<Point>)
    ensures |points| == |openSet.items|
    ensures forall i :: 0 <= i < |points| ==> points[i] == openSet.items[i]
  {
    points := [];
    var i := 0;
    while i < |openSet.items|
      invariant 0 <= i <= |openSet.items|
      invariant points == openSet.items[..i]
    {
      points := points + [openSet.items[i]];
      i := i + 1;
    }
  }

  /** A fresh grid of `height` rows of `width` blank nodes, start at the
      top-left corner and end at the bottom-right one. */
  method CreateGrid(width: int, height: int) returns (grid: Grid)
    requires 0 <= height && (0 < height ==> 0 <= width)
    ensures fresh(grid)
    ensures grid.width == width && grid.height == height && grid.WellFormed()
    ensures forall p :: grid.IsValidPoint(p) ==> grid.Cell(grid.nodes, p) == Blank(p)
    ensures grid.start == Point(0, 0) && grid.end == Point(width - 1, height - 1)
  {
    var nodes: seq<seq<Node>> := [];
    var y := 0;
    while y < height
      invariant 0 <= y <= height
      invariant |nodes| == y
      invariant forall r, x :: 0 <= r < y && 0 <= x < width ==> |nodes[r]| == width && nodes[r][x] == Blank(Point(x, r))
      invariant forall r :: 0 <= r < y ==> |nodes[r]| == width
    {
      var row: seq<Node> := [];
      var x := 0;
      while x < width
        invariant 0 <= x <= width
        invariant |row| == x
        invariant forall c :: 0 <= c < x ==> row[c] == Blank(Point(c, y))
      {
        row := row + [Blank(Point(x, y))];
        x := x + 1;
      }
      nodes := nodes + [row];
      y := y + 1;
    }
    grid := new Grid(width, height, nodes, Point(0, 0), Point(width - 1, height - 1));
  }

  /** The parent links of the nodes in `order` stay inside the grid and lead
      to nodes of strictly smaller rank: following them always ends. */
  ghost predicate ChainOrdered(grid: Grid, rows: seq<seq<Node>>, order: map<Point, nat>)
    requires grid.Fits(rows)
  {
    forall q :: grid.IsValidPoint(q) && q in order && grid.Cell(rows, q).parent.Some? ==>
      var p := grid.Cell(rows, q).parent.value;
      grid.IsValidPoint(p) && p in order && order[p] < order[q]
  }

  /** The parent chain ending at `endPoint`, root first. */
  method ReconstructPath(grid: Grid, endPoint: Point, ghost order: map<Point, nat>) returns (path: seq<Point>)
    requires grid.WellFormed() && grid.IsValidPoint(endPoint) && endPoint in order
    requires ChainOrdered(grid, grid.nodes, order)
    ensures |path| > 0 && path[|path| - 1] == endPoint
    ensures forall i :: 0 <= i < |path| ==> grid.IsValidPoint(path[i]) && path[i] in order
    ensures grid.Cell(grid.nodes, path[0]).parent == None
    ensures forall i :: 0 <= i < |path| - 1 ==> grid.Cell(grid.nodes, path[i + 1]).parent == Some(path[i])
    ensures forall i, j :: 0 <= i < j < |path| ==> order[path[i]] < order[path[j]]
  {
    path := [];
    var current: Option<Point> := Some(endPoint);
    while current.Some?
      invariant current.Some? ==> grid.IsValidPoint(current.value) && current.value in order
      invariant forall i :: 0 <= i < |path| ==> grid.IsValidPoint(path[i]) && path[i] in order
      invariant path == [] ==> current == Some(endPoint)
      invariant path != [] ==> path[|path| - 1] == endPoint && grid.Cell(grid.nodes, path[0]).parent == current
      invariant path != [] && current.Some? ==> order[current.value] < order[path[0]]
      invariant forall i :: 0 <= i < |path| - 1 ==> grid.Cell(grid.nodes, path[i + 1]).parent == Some(path[i])
      invariant forall i, j :: 0 <= i < j < |path| ==> order[path[i]] < order[path[j]]
      decreases if current.Some? then order[current.value] + 1 else 0
    {
      var here := current.value;
      path := [here] + path;
      current := grid.Cell(grid.nodes, here).parent;
    }
  }

  /** `path` walks from the grid's start to its end in single moves, each
      onto a passable cell of `rows`. */
  ghost predicate IsWalk(grid: Grid, rows: seq<seq<Node>>, path: seq<Point>)
    requires grid.Fits(rows)
  {
    |path| > 0 && path[0] == grid.start && path[|path| - 1] == grid.end &&
    forall i, j :: 0 <= i < j < |path| && j == i + 1 ==> Adjacent(path[i], path[j]) && grid.Passable(rows, path[j])
  }

  /** `region` holds the start, not the end, and every passable cell next to
      one of its cells: no walk can leave it, so none reaches the end. */
  ghost predicate Enclosed(grid: Grid, rows: seq<seq<Node>>, region: seq<Point>)
    requires grid.Fits(rows)
  {
    grid.start in region && grid.end !in region &&
    forall c, q :: c in region && Adjacent(c, q) && grid.Passable(rows, q) ==> q in region
  }

  /** A failed search proves that the end cannot be reached. */
  lemma {:induction false} EnclosedHasNoWalk(grid: Grid, rows: seq<seq<Node>>, region: seq<Point>, path: seq<Point>)
    requires grid.Fits(rows) && Enclosed(grid, rows, region)
    ensures !IsWalk(grid, rows, path)
  {
    if IsWalk(grid, rows, path) {
      var i := 0;
      while i < |path| - 1
        invariant 0 <= i <= |path| - 1
        invariant path[i] in region
      {
        assert Adjacent(path[i], path[i + 1]) && grid.Passable(rows, path[i + 1]);
        i := i + 1;
      }
      assert false;
    }
  }

  // ---------------------------------------------------------------------
  // The state the A* loop keeps. Walls never change during a search, so
  // passability is read from `walls`, the grid as the search received it.
  // ---------------------------------------------------------------------

  /** The cells inside the grid. */
  ghost function AllCells(grid: Grid): set<Point>
  {
    set y, x | 0 <= y < grid.height && 0 <= x < grid.width :: Point(x, y)
  }

  /** Walls, markers and points are those of `before`. */
  ghost predicate SameStructure(grid: Grid, before: seq<seq<Node>>, rows: seq<seq<Node>>)
    requires grid.Fits(before) && grid.Fits(rows)
  {
    forall p :: grid.IsValidPoint(p) ==>
      var a, b := grid.Cell(before, p), grid.Cell(rows, p);
      a.point == b.point && a.isWall == b.isWall && a.isStart == b.isStart && a.isEnd == b.isEnd
  }

  /** Replacing a node by one with the same point, wall and markers keeps
      the structure. */
  lemma PutKeepsStructure(grid: Grid, before: seq<seq<Node>>, rows: seq<seq<Node>>, p: Point, n: Node)
    requires grid.Fits(before) && grid.Fits(rows) && grid.IsValidPoint(p)
    requires SameStructure(grid, before, rows)
    requires var m := grid.Cell(rows, p);
      n.point == m.point && n.isWall == m.isWall && n.isStart == m.isStart && n.isEnd == m.isEnd
    ensures SameStructure(grid, before, grid.Put(rows, p, n))
  {
  }

  /** The link from `q` to its parent `p` is one A* can have made. */
  ghost predicate LinkOk(grid: Grid, walls: seq<seq<Node>>, order: map<Point, nat>, q: Point, p: Point)
    requires grid.Fits(walls)
  {
    grid.IsValidPoint(p) && p in order && Adjacent(p, q) && q != grid.start &&
    grid.Passable(walls, q) && (q in order ==> order[p] < order[q])
  }

  /** The open queue: inside the grid, distinct and not closed. */
  ghost predicate QueueOk(grid: Grid, open: seq<Point>, closed: set<Point>)
  {
    && (forall i :: 0 <= i < |open| ==> grid.IsValidPoint(open[i]) && open[i] !in closed)
    && (forall i, j :: 0 <= i < j < |open| ==> open[i] != open[j])
  }

  /** The closed set is the set of `explored`, and `order` gives each closed
      node's index in it. */
  ghost predicate ClosedOk(grid: Grid, closed: set<Point>, explored: seq<Point>, order: map<Point, nat>)
  {
    && order.Keys == closed
    && (forall i :: 0 <= i < |explored| ==> explored[i] in order && order[explored[i]] == i)
    && (forall p :: p in order ==> order[p] < |explored|)
    && (forall p :: p in closed ==> p in explored && grid.IsValidPoint(p))
  }

  /** The node flags mirror the queue and the closed set; no path is marked. */
  ghost predicate FlagsOk(grid: Grid, rows: seq<seq<Node>>, open: seq<Point>, closed: set<Point>)
    requires grid.Fits(rows)
  {
    forall p :: grid.IsValidPoint(p) ==>
      && (grid.Cell(rows, p).inOpenSet <==> p in open)
      && (grid.Cell(rows, p).visited <==> p in closed)
      && !grid.Cell(rows, p).isPath
  }

  /** Every parent link is one A* can have made, and every discovered node
      other than the start has one. */
  ghost predicate ParentsOk(grid: Grid, walls: seq<seq<Node>>, rows: seq<seq<Node>>,
                            open: seq<Point>, closed: set<Point>, order: map<Point, nat>)
    requires grid.Fits(walls) && grid.Fits(rows)
  {
    && (forall q :: grid.IsValidPoint(q) && grid.Cell(rows, q).parent.Some? ==>
          LinkOk(grid, walls, order, q, grid.Cell(rows, q).parent.value))
    && (forall q :: grid.IsValidPoint(q) && (q in closed || q in open) && q != grid.start ==>
          grid.Cell(rows, q).parent.Some?)
  }

  /** The start is the first node explored. */
  ghost predicate StartFirst(grid: Grid, open: seq<Point>, closed: set<Point>, explored: seq<Point>)
  {
    (closed == {} && open == [grid.start]) || (|explored| > 0 && explored[0] == grid.start)
  }

  /** Every passable neighbour of a closed node outside `pending` has been
      discovered. */
  ghost predicate Frontier(grid: Grid, walls: seq<seq<Node>>, open: seq<Point>, closed: set<Point>,
                           pending: set<Point>)
    requires grid.Fits(walls)
  {
    forall c, q {:trigger Adjacent(c, q)} ::
      c in closed && c !in pending && Adjacent(c, q) && grid.Passable(walls, q) ==> q in closed || q in open
  }

  /** The A* loop invariant. `open` is the queue, `closed` the closed set,
      `explored` the closed nodes in closing order, `order` the index of each
      closed node in `explored`; the neighbours of the closed nodes in
      `pending` may not all have been discovered yet. */
  ghost predicate SearchInv(grid: Grid, walls: seq<seq<Node>>, rows: seq<seq<Node>>,
                            open: seq<Point>, closed: set<Point>, explored: seq<Point>,
                            order: map<Point, nat>, pending: set<Point>)
    requires grid.Fits(walls) && grid.Fits(rows)
  {
    && QueueOk(grid, open, closed)
    && ClosedOk(grid, closed, explored, order)
    && FlagsOk(grid, rows, open, closed)
    && ParentsOk(grid, walls, rows, open, closed, order)
    && StartFirst(grid, open, closed, explored)
    && Frontier(grid, walls, open, closed, pending)
  }

  /** The animation frames recorded so far: one per closed node, none final. */
  ghost predicate StepsSoFar(animate: bool, explored: seq<Point>, steps: seq<Step>)
  {
    (!animate ==> steps == []) &&
    (animate ==>
       && |steps| == |explored|
       && forall i :: 0 <= i < |steps| ==>
            steps[i].currentNode == explored[i] && steps[i].closedSet == explored[..i + 1] &&
            steps[i].path == None && !steps[i].isComplete &&
            forall x :: x in steps[i].openSet ==> x !in steps[i].closedSet)
  }

  /** The open set of frame `i` is the frontier at that moment: exactly the
      passable cells outside the first `i + 1` explored cells that lie next
      to one of the first `i` of them (the cells already expanded). */
  ghost predicate OpenIsFrontier(grid: Grid, walls: seq<seq<Node>>, explored: seq<Point>, i: nat, open: seq<Point>)
    requires grid.Fits(walls) && i < |explored|
  {
    forall x :: x in open <==>
      && x !in explored[..i + 1] && grid.Passable(walls, x)
      && exists j :: 0 <= j < i && Adjacent(explored[j], x)
  }

  /** Every frame recorded so far shows its frontier as its open set. */
  ghost predicate FramesFrontier(grid: Grid, walls: seq<seq<Node>>, explored: seq<Point>, steps: seq<Step>)
    requires grid.Fits(walls)
  {
    forall i :: 0 <= i < |steps| && i < |explored| ==> OpenIsFrontier(grid, walls, explored, i, steps[i].openSet)
  }

  /** A frontier stays what it was when more cells are explored later. */
  lemma FrontierKept(grid: Grid, walls: seq<seq<Node>>, explored: seq<Point>, i: nat, open: seq<Point>, c: Point)
    requires grid.Fits(walls) && i < |explored|
    requires OpenIsFrontier(grid, walls, explored, i, open)
    ensures OpenIsFrontier(grid, walls, explored + [c], i, open)
  {
    var explored' := explored + [c];
    assert explored'[..i + 1] == explored[..i + 1];
    forall x | x in open
      ensures exists j :: 0 <= j < i && Adjacent(explored'[j], x)
    {
      var j :| 0 <= j < i && Adjacent(explored[j], x);
      assert explored'[j] == explored[j];
    }
    forall x | grid.Passable(walls, x) && exists j :: 0 <= j < i && Adjacent(explored'[j], x)
      ensures exists j :: 0 <= j < i && Adjacent(explored[j], x)
    {
      var j :| 0 <= j < i && Adjacent(explored'[j], x);
      assert explored'[j] == explored[j];
    }
  }

  /** Appending a frame whose open set is its frontier keeps every frame's
      open set its frontier. */
  lemma FramesFrontierExtended(grid: Grid, walls: seq<seq<Node>>, explored: seq<Point>, steps: seq<Step>,
                               c: Point, step: Step)
    requires grid.Fits(walls) && |steps| == |explored|
    requires FramesFrontier(grid, walls, explored, steps)
    requires OpenIsFrontier(grid, walls, explored + [c], |explored|, step.openSet)
    ensures FramesFrontier(grid, walls, explored + [c], steps + [step])
  {
    var steps' := steps + [step];
    forall i | 0 <= i < |steps'|
      ensures OpenIsFrontier(grid, walls, explored + [c], i, steps'[i].openSet)
    {
      if i < |steps| {
        FrontierKept(grid, walls, explored, i, steps[i].openSet, c);
      }
    }
  }

  /** The entry the k-th pop takes out of an open set of size `n`. */
  function PopIndex(pops: seq<nat>, k: nat, n: nat): (i: nat)
    requires n > 0
    ensures i < n
  {
    if k < |pops| then pops[k] % n else 0
  }

  /** Removing entry `i` the way heap.Pop does (swap it with the last entry,
      drop the last) removes exactly that entry. */
  lemma RemoveEntry(open: seq<Point>, i: nat, last: nat, swapped: seq<Point>, rest: seq<Point>, c: Point)
    requires i < |open| && last == |open| - 1
    requires forall a, b :: 0 <= a < b < |open| ==> open[a] != open[b]
    requires swapped == open[i := open[last]][last := open[i]]
    requires rest == swapped[..|swapped| - 1] && c == swapped[|swapped| - 1]
    ensures c == open[i]
    ensures forall x :: x in rest <==> x in open && x != c
    ensures forall a, b :: 0 <= a < b < |rest| ==> rest[a] != rest[b]
  {
    var n := |open|;
    forall x | x in open && x != open[i]
      ensures x in rest
    {
      var k :| 0 <= k < n && open[k] == x;
      if k == n - 1 { assert rest[i] == x; } else { assert rest[k] == x; }
    }
  }

  /** Closing the queue entry `open[i]` keeps the invariant, with that node
      pending expansion. */
  lemma ClosingKeepsInv(grid: Grid, walls: seq<seq<Node>>, rows: seq<seq<Node>>, open: seq<Point>,
                        closed: set<Point>, explored: seq<Point>, order: map<Point, nat>,
                        i: nat, c: Point, rest: seq<Point>, rows': seq<seq<Node>>,
                        closed': set<Point>, explored': seq<Point>, order': map<Point, nat>)
    requires grid.Fits(walls) && grid.Fits(rows) && grid.Fits(rows')
    requires SearchInv(grid, walls, rows, open, closed, explored, order, {})
    requires i < |open| && c == open[i]
    requires forall x :: x in rest <==> x in open && x != c
    requires forall a, b :: 0 <= a < b < |rest| ==> rest[a] != rest[b]
    requires grid.IsValidPoint(c)
    requires rows' == grid.Put(rows, c, grid.Cell(rows, c).(inOpenSet := false, visited := true))
    requires closed' == closed + {c} && explored' == explored + [c] && order' == order[c := |explored|]
    ensures SearchInv(grid, walls, rows', rest, closed', explored', order', {c})
  {
    assert c !in closed && c !in order;
    assert QueueOk(grid, rest, closed') by {
      forall a | 0 <= a < |rest|
        ensures grid.IsValidPoint(rest[a]) && rest[a] !in closed'
      {
        assert rest[a] in open;
      }
    }
    assert ClosedOk(grid, closed', explored', order') by {
      forall k | 0 <= k < |explored'|
        ensures explored'[k] in order' && order'[explored'[k]] == k
      {
        if k < |explored| { assert explored'[k] == explored[k]; }
      }
    }
    assert FlagsOk(grid, rows', rest, closed');
    assert ParentsOk(grid, walls, rows', rest, closed', order') by {
      forall q | grid.IsValidPoint(q) && grid.Cell(rows', q).parent.Some?
        ensures LinkOk(grid, walls, order', q, grid.Cell(rows', q).parent.value)
      {
        assert grid.Cell(rows', q).parent == grid.Cell(rows, q).parent;
        assert LinkOk(grid, walls, order, q, grid.Cell(rows, q).parent.value);
      }
      forall q | grid.IsValidPoint(q) && (q in closed' || q in rest) && q != grid.start
        ensures grid.Cell(rows', q).parent.Some?
      {
        assert grid.Cell(rows', q).parent == grid.Cell(rows, q).parent;
      }
    }
    assert StartFirst(grid, rest, closed', explored') by {
      if closed == {} {
        assert c == grid.start;
      } else {
        assert explored'[0] == explored[0];
      }
    }
    assert Frontier(grid, walls, rest, closed', {c});
  }

  /** Takes the next node off the queue and closes it (the head of one A*
      iteration). */
  method CloseNext(grid: Grid, openSet: PriorityQueue, pops: seq<nat>,
                   closed: set<Point>, explored: seq<Point>,
                   ghost walls: seq<seq<Node>>, ghost order: map<Point, nat>)
      returns (current: Point, closed': set<Point>, explored': seq<Point>, ghost order': map<Point, nat>)
    requires grid.WellFormed() && grid.Fits(walls) && SameStructure(grid, walls, grid.nodes)
    requires SearchInv(grid, walls, grid.nodes, openSet.items, closed, explored, order, {})
    requires |openSet.items| > 0
    modifies grid, openSet
    ensures grid.WellFormed() && SameStructure(grid, walls, grid.nodes)
    ensures old(openSet.items)[PopIndex(pops, |explored|, |old(openSet.items)|)] == current
    ensures current !in closed && grid.IsValidPoint(current)
    ensures closed' == closed + {current} && explored' == explored + [current]
    ensures forall x :: x in openSet.items <==> x in old(openSet.items) && x != current
    ensures grid.nodes == grid.Put(old(grid.nodes), current,
                                   grid.Cell(old(grid.nodes), current).(inOpenSet := false, visited := true))
    ensures forall q :: grid.IsValidPoint(q) ==> grid.Cell(grid.nodes, q).parent != Some(current)
    ensures SearchInv(grid, walls, grid.nodes, openSet.items, closed', explored', order', {current})
  {
    var n := openSet.Len();
    var i := PopIndex(pops, |explored|, n);
    ghost var open := openSet.items;
    ghost var rows := grid.nodes;
    openSet.Swap(i, n - 1);
    ghost var swapped := openSet.items;
    current := openSet.Pop();
    RemoveEntry(open, i, n - 1, swapped, openSet.items, current);
    assert grid.IsValidPoint(current) && current !in closed;
    var node := grid.Cell(grid.nodes, current).(inOpenSet := false, visited := true);
    grid.nodes := grid.Put(grid.nodes, current, node);
    PutKeepsStructure(grid, walls, rows, current, node);
    closed' := closed + {current};
    order' := order[current := |explored|];
    explored' := explored + [current];
    ClosingKeepsInv(grid, walls, rows, open, closed, explored, order, i, current, openSet.items, grid.nodes,
                    closed', explored', order');
    forall q | grid.IsValidPoint(q) && grid.Cell(grid.nodes, q).parent.Some?
      ensures grid.Cell(grid.nodes, q).parent != Some(current)
    {
      assert grid.Cell(grid.nodes, q).parent == grid.Cell(rows, q).parent;
      assert LinkOk(grid, walls, order, q, grid.Cell(rows, q).parent.value);
    }
  }

  /** Right after a node is closed, and before it is expanded, the queue is
      exactly its frontier: every queued node was discovered from an
      earlier closed node, and every passable neighbour of one is closed or
      queued. */
  lemma QueueIsFrontier(grid: Grid, walls: seq<seq<Node>>, rows: seq<seq<Node>>, open: seq<Point>,
                        closed: set<Point>, explored: seq<Point>, order: map<Point, nat>, c: Point)
    requires grid.Fits(walls) && grid.Fits(rows)
    requires SearchInv(grid, walls, rows, open, closed, explored, order, {c})
    requires |explored| > 0 && explored[|explored| - 1] == c
    requires forall q :: grid.IsValidPoint(q) ==> grid.Cell(rows, q).parent != Some(c)
    ensures OpenIsFrontier(grid, walls, explored, |explored| - 1, open)
  {
    assert explored[..|explored|] == explored;
    QueuedNextToExplored(grid, walls, rows, open, closed, explored, order, c);
    NextToExploredQueued(grid, walls, rows, open, closed, explored, order, c);
  }

  /** Every queued point is unexplored and passable, and was reached from
      an earlier explored point: its parent. */
  lemma QueuedNextToExplored(grid: Grid, walls: seq<seq<Node>>, rows: seq<seq<Node>>, open: seq<Point>,
                             closed: set<Point>, explored: seq<Point>, order: map<Point, nat>, c: Point)
    requires grid.Fits(walls) && grid.Fits(rows)
    requires QueueOk(grid, open, closed) && ClosedOk(grid, closed, explored, order)
    requires ParentsOk(grid, walls, rows, open, closed, order) && StartFirst(grid, open, closed, explored)
    requires |explored| > 0 && explored[|explored| - 1] == c
    requires forall q :: grid.IsValidPoint(q) ==> grid.Cell(rows, q).parent != Some(c)
    ensures forall x :: x in open ==>
      && x !in explored && grid.Passable(walls, x)
      && exists j :: 0 <= j < |explored| - 1 && Adjacent(explored[j], x)
  {
    ClosedIsExplored(grid, closed, explored, order);
    assert grid.start in closed by {
      assert explored[0] in order;
    }
    forall x | x in open
      ensures
        && x !in explored && grid.Passable(walls, x)
        && exists j :: 0 <= j < |explored| - 1 && Adjacent(explored[j], x)
    {
      var k :| 0 <= k < |open| && open[k] == x;
      assert grid.IsValidPoint(x) && x !in closed;
      var p := grid.Cell(rows, x).parent.value;
      assert LinkOk(grid, walls, order, x, p);
      assert p != c;
      var j :| 0 <= j < |explored| && explored[j] == p;
      assert j < |explored| - 1;
    }
  }

  /** Every unexplored passable neighbour of a point explored before the
      last is queued. */
  lemma NextToExploredQueued(grid: Grid, walls: seq<seq<Node>>, rows: seq<seq<Node>>, open: seq<Point>,
                             closed: set<Point>, explored: seq<Point>, order: map<Point, nat>, c: Point)
    requires grid.Fits(walls) && grid.Fits(rows)
    requires SearchInv(grid, walls, rows, open, closed, explored, order, {c})
    requires |explored| > 0 && explored[|explored| - 1] == c
    ensures forall x ::
      (x !in explored && grid.Passable(walls, x) && exists j :: 0 <= j < |explored| - 1 && Adjacent(explored[j], x))
      ==> x in open
  {
    ClosedIsExplored(grid, closed, explored, order);
    forall x | x !in explored && grid.Passable(walls, x) && exists j :: 0 <= j < |explored| - 1 && Adjacent(explored[j], x)
      ensures x in open
    {
      var j :| 0 <= j < |explored| - 1 && Adjacent(explored[j], x);
      assert explored[j] in order && explored[j] != c;
    }
  }

  /** Discovering `nb` keeps the queue and the node flags in step. */
  lemma DiscoverKeepsQueue(grid: Grid, rows: seq<seq<Node>>, open: seq<Point>, closed: set<Point>,
                           c: Point, nb: Point, g: int, rows': seq<seq<Node>>, open': seq<Point>)
    requires grid.Fits(rows) && grid.Fits(rows')
    requires QueueOk(grid, open, closed) && FlagsOk(grid, rows, open, closed)
    requires nb !in closed && grid.IsValidPoint(nb)
    requires var n := grid.Cell(rows, nb);
      rows' == grid.Put(rows, nb, n.(parent := Some(c), g := g, inOpenSet := true)) &&
      open' == if n.inOpenSet then open else open + [nb]
    ensures forall x :: x in open' <==> x in open || x == nb
    ensures QueueOk(grid, open', closed) && FlagsOk(grid, rows', open', closed)
  {
    var n := grid.Cell(rows, nb);
    assert nb in open <==> n.inOpenSet;
    assert forall x :: x in open' <==> x in open || x == nb;
    if !n.inOpenSet {
      forall a, b | 0 <= a < b < |open'|
        ensures open'[a] != open'[b]
      {
        if b == |open| { assert open'[a] in open; }
      }
    }
  }

  /** Giving the unclosed neighbour `nb` of the closed node `c` the parent
      `c` (and queuing it when it was not queued yet) keeps the invariant. */
  lemma DiscoverKeepsInv(grid: Grid, walls: seq<seq<Node>>, rows: seq<seq<Node>>, open: seq<Point>,
                         closed: set<Point>, explored: seq<Point>, order: map<Point, nat>,
                         c: Point, nb: Point, g: int, rows': seq<seq<Node>>, open': seq<Point>)
    requires grid.Fits(walls) && grid.Fits(rows) && grid.Fits(rows')
    requires SearchInv(grid, walls, rows, open, closed, explored, order, {c})
    requires c in closed && nb !in closed && Adjacent(c, nb) && grid.Passable(walls, nb)
    requires var n := grid.Cell(rows, nb);
      rows' == grid.Put(rows, nb, n.(parent := Some(c), g := g, inOpenSet := true)) &&
      open' == if n.inOpenSet then open else open + [nb]
    ensures SearchInv(grid, walls, rows', open', closed, explored, order, {c})
  {
    DiscoverKeepsQueue(grid, rows, open, closed, c, nb, g, rows', open');
    assert grid.start in closed by {
      assert explored[0] in order;
    }
    assert ParentsOk(grid, walls, rows', open', closed, order) by {
      forall q | grid.IsValidPoint(q) && grid.Cell(rows', q).parent.Some?
        ensures LinkOk(grid, walls, order, q, grid.Cell(rows', q).parent.value)
      {
        if q != nb {
          assert LinkOk(grid, walls, order, q, grid.Cell(rows, q).parent.value);
        }
      }
    }
    assert StartFirst(grid, open', closed, explored) by {
      assert explored[0] in order;
    }
  }

  /** One pass of the neighbour loop: `neighborPoint` is skipped when closed,
      queued with parent `current` when not yet queued, and re-parented to
      `current` when that shortens its known route. */
  method Discover(grid: Grid, openSet: PriorityQueue, current: Point, neighborPoint: Point,
                  closed: set<Point>, ghost walls: seq<seq<Node>>, ghost explored: seq<Point>,
                  ghost order: map<Point, nat>, ghost done: seq<Point>)
    requires grid.WellFormed() && grid.Fits(walls) && SameStructure(grid, walls, grid.nodes)
    requires current in closed && Adjacent(current, neighborPoint) && grid.Passable(walls, neighborPoint)
    requires SearchInv(grid, walls, grid.nodes, openSet.items, closed, explored, order, {current})
    requires forall q :: q in done ==> q in closed || q in openSet.items
    modifies grid, openSet
    ensures grid.WellFormed() && SameStructure(grid, walls, grid.nodes)
    ensures SearchInv(grid, walls, grid.nodes, openSet.items, closed, explored, order, {current})
    ensures forall x :: x in old(openSet.items) ==> x in openSet.items
    ensures forall q :: q in done + [neighborPoint] ==> q in closed || q in openSet.items
    ensures neighborPoint in closed ==> grid.nodes == old(grid.nodes) && openSet.items == old(openSet.items)
    ensures neighborPoint !in closed ==>
      var n, g := grid.Cell(old(grid.nodes), neighborPoint), grid.Cell(old(grid.nodes), current).g + 1;
      && (!n.inOpenSet ==>
            && grid.nodes == grid.Put(old(grid.nodes), neighborPoint, n.(parent := Some(current), g := g, inOpenSet := true))
            && openSet.items == old(openSet.items) + [neighborPoint])
      && (n.inOpenSet && g < n.g ==>
            && grid.nodes == grid.Put(old(grid.nodes), neighborPoint, n.(parent := Some(current), g := g))
            && openSet.items == old(openSet.items))
      && (n.inOpenSet && g >= n.g ==> grid.nodes == old(grid.nodes) && openSet.items == old(openSet.items))
  {
    if neighborPoint in closed {
      return;
    }
    ghost var rows, open := grid.nodes, openSet.items;
    var neighbor := grid.nodes[neighborPoint.y][neighborPoint.x];
    var tentativeG := grid.nodes[current.y][current.x].g + 1;
    if !neighbor.inOpenSet {
      grid.nodes := grid.Put(grid.nodes, neighborPoint,
                             neighbor.(parent := Some(current), g := tentativeG, inOpenSet := true));
      openSet.Push(neighborPoint);
      DiscoverKeepsInv(grid, walls, rows, open, closed, explored, order,
                       current, neighborPoint, tentativeG, grid.nodes, openSet.items);
    } else if tentativeG < neighbor.g {
      grid.nodes := grid.Put(grid.nodes, neighborPoint,
                             neighbor.(parent := Some(current), g := tentativeG));
      DiscoverKeepsInv(grid, walls, rows, open, closed, explored, order,
                       current, neighborPoint, tentativeG, grid.nodes, openSet.items);
    }
  }

  /** Once every passable neighbour of `c` is closed or queued, `c` need no
      longer be pending. */
  lemma ExpansionDone(grid: Grid, walls: seq<seq<Node>>, rows: seq<seq<Node>>, open: seq<Point>,
                      closed: set<Point>, explored: seq<Point>, order: map<Point, nat>,
                      c: Point, neighbors: seq<Point>)
    requires grid.Fits(walls) && grid.Fits(rows)
    requires SearchInv(grid, walls, rows, open, closed, explored, order, {c})
    requires forall q :: q in neighbors <==> Adjacent(c, q) && grid.Passable(walls, q)
    requires forall q :: q in neighbors ==> q in closed || q in open
    ensures SearchInv(grid, walls, rows, open, closed, explored, order, {})
  {
  }

  /** The neighbour loop of one A* iteration: every point of `neighbors`
      ends up closed or queued. */
  method DiscoverAll(grid: Grid, openSet: PriorityQueue, current: Point, neighbors: seq<Point>,
                     closed: set<Point>, ghost walls: seq<seq<Node>>, ghost explored: seq<Point>,
                     ghost order: map<Point, nat>)
    requires grid.WellFormed() && grid.Fits(walls) && SameStructure(grid, walls, grid.nodes)
    requires current in closed
    requires forall q :: q in neighbors ==> Adjacent(current, q) && grid.Passable(walls, q)
    requires SearchInv(grid, walls, grid.nodes, openSet.items, closed, explored, order, {current})
    modifies grid, openSet
    ensures grid.WellFormed() && SameStructure(grid, walls, grid.nodes)
    ensures SearchInv(grid, walls, grid.nodes, openSet.items, closed, explored, order, {current})
    ensures forall q :: q in neighbors ==> q in closed || q in openSet.items
  {
    var j := 0;
    while j < |neighbors|
      invariant 0 <= j <= |neighbors|
      invariant grid.WellFormed() && SameStructure(grid, walls, grid.nodes)
      invariant SearchInv(grid, walls, grid.nodes, openSet.items, closed, explored, order, {current})
      invariant forall q :: q in neighbors[..j] ==> q in closed || q in openSet.items
    {
      assert neighbors[j] in neighbors;
      Discover(grid, openSet, current, neighbors[j], closed, walls, explored, order, neighbors[..j]);
      assert neighbors[..j] + [neighbors[j]] == neighbors[..j + 1];
      j := j + 1;
    }
    assert neighbors[..j] == neighbors;
  }

  /** Discovers the neighbours of the just-closed `current`. */
  method ExpandNeighbors(grid: Grid, openSet: PriorityQueue, current: Point, closed: set<Point>,
                         ghost walls: seq<seq<Node>>, ghost explored: seq<Point>, ghost order: map<Point, nat>)
    requires grid.WellFormed() && grid.Fits(walls) && SameStructure(grid, walls, grid.nodes)
    requires current in closed
    requires SearchInv(grid, walls, grid.nodes, openSet.items, closed, explored, order, {current})
    modifies grid, openSet
    ensures grid.WellFormed() && SameStructure(grid, walls, grid.nodes)
    ensures SearchInv(grid, walls, grid.nodes, openSet.items, closed, explored, order, {})
  {
    var neighbors := grid.GetNeighbors(current);
    assert forall q :: q in neighbors <==> Adjacent(current, q) && grid.Passable(walls, q);
    DiscoverAll(grid, openSet, current, neighbors, closed, walls, explored, order);
    ExpansionDone(grid, walls, grid.nodes, openSet.items, closed, explored, order, current, neighbors);
  }

  /** Sets the path flag of every point of `path` other than the start and
      the end; nothing else changes. */
  method MarkPath(grid: Grid, path: seq<Point>)
    requires grid.WellFormed()
    requires forall i :: 0 <= i < |path| ==> grid.IsValidPoint(path[i])
    modifies grid
    ensures grid.WellFormed()
    ensures forall p :: grid.IsValidPoint(p) ==>
      var n := grid.Cell(old(grid.nodes), p);
      grid.Cell(grid.nodes, p) == n.(isPath := n.isPath || (p in path && p != grid.start && p != grid.end))
  {
    var i := 0;
    while i < |path|
      invariant 0 <= i <= |path| && grid.WellFormed()
      invariant forall p :: grid.IsValidPoint(p) ==>
        var n := grid.Cell(old(grid.nodes), p);
        grid.Cell(grid.nodes, p) == n.(isPath := n.isPath || (p in path[..i] && p != grid.start && p != grid.end))
    {
      var p := path[i];
      assert path[..i + 1] == path[..i] + [p];
      if p != grid.start && p != grid.end {
        grid.nodes := grid.Put(grid.nodes, p, grid.nodes[p.y][p.x].(isPath := true));
      }
      i := i + 1;
    }
    assert path[..i] == path;
  }

  /** Every cell of the grid is in `AllCells`. */
  lemma InsideAllCells(grid: Grid, p: Point)
    requires grid.IsValidPoint(p)
    ensures p in AllCells(grid)
  {
    assert p == Point(p.x, p.y);
  }

  /** A search that ran out of queued nodes without closing the end has
      closed a region the end lies outside of. */
  lemma FailedSearchEncloses(grid: Grid, walls: seq<seq<Node>>, rows: seq<seq<Node>>,
                             closed: set<Point>, explored: seq<Point>, order: map<Point, nat>)
    requires grid.Fits(walls) && grid.Fits(rows)
    requires SearchInv(grid, walls, rows, [], closed, explored, order, {})
    requires grid.end !in closed
    ensures Enclosed(grid, walls, explored)
  {
    assert explored[0] in order;
    forall c, q | c in explored && Adjacent(c, q) && grid.Passable(walls, q)
      ensures q in explored
    {
      var k :| 0 <= k < |explored| && explored[k] == c;
      assert c in order;
    }
  }

  /** The closed set and the explored list hold the same points; the list
      has no repeats and stays inside the grid. */
  lemma ClosedIsExplored(grid: Grid, closed: set<Point>, explored: seq<Point>, order: map<Point, nat>)
    requires ClosedOk(grid, closed, explored, order)
    ensures forall p :: p in closed <==> p in explored
    ensures forall i :: 0 <= i < |explored| ==> grid.IsValidPoint(explored[i])
    ensures forall i, j :: 0 <= i < j < |explored| ==> explored[i] != explored[j]
  {
    forall i, j | 0 <= i < j < |explored|
      ensures explored[i] != explored[j]
    {
      assert order[explored[i]] == i && order[explored[j]] == j;
    }
    forall i | 0 <= i < |explored|
      ensures grid.IsValidPoint(explored[i])
    {
      assert explored[i] in order;
    }
  }

  /** Closing one more cell of the grid leaves fewer cells unclosed. */
  lemma ClosingShrinks(grid: Grid, closed: set<Point>, c: Point)
    requires forall p :: p in closed ==> grid.IsValidPoint(p)
    requires grid.IsValidPoint(c) && c !in closed
    ensures |AllCells(grid) - (closed + {c})| < |AllCells(grid) - closed|
  {
    InsideAllCells(grid, c);
    assert AllCells(grid) - closed == (AllCells(grid) - (closed + {c})) + {c};
  }

  /** Appending the frame of a node that is not the end, whose open set is
      its frontier, keeps the record of frames. */
  lemma StepRecorded(grid: Grid, walls: seq<seq<Node>>, animate: bool, explored: seq<Point>, steps: seq<Step>,
                     c: Point, open: seq<Point>)
    requires grid.Fits(walls)
    requires StepsSoFar(animate, explored, steps) && FramesFrontier(grid, walls, explored, steps)
    requires animate ==> OpenIsFrontier(grid, walls, explored + [c], |explored|, open)
    ensures StepsSoFar(animate, explored + [c],
                       if animate then steps + [Step(c, open, explored + [c], None, false)] else steps)
    ensures FramesFrontier(grid, walls, explored + [c],
                           if animate then steps + [Step(c, open, explored + [c], None, false)] else steps)
  {
    var explored' := explored + [c];
    if animate {
      FramesFrontierExtended(grid, walls, explored, steps, c, Step(c, open, explored', None, false));
      assert explored'[..|explored| + 1] == explored';
      var steps' := steps + [Step(c, open, explored', None, false)];
      forall i | 0 <= i < |steps'|
        ensures steps'[i].closedSet == explored'[..i + 1]
      {
        if i < |steps| {
          assert explored'[..i + 1] == explored[..i + 1];
        }
      }
    }
  }

  /** The explored list as the response reports it. */
  ghost predicate ExploredReported(grid: Grid, resp: Response)
  {
    && resp.nodesExplored == |resp.exploredNodes|
    && |resp.exploredNodes| > 0 && resp.exploredNodes[0] == grid.start
    && (forall i :: 0 <= i < |resp.exploredNodes| ==> grid.IsValidPoint(resp.exploredNodes[i]))
    && (forall i, j :: 0 <= i < j < |resp.exploredNodes| ==> resp.exploredNodes[i] != resp.exploredNodes[j])
    && (resp.success <==> grid.end in resp.exploredNodes)
  }

  /** The path as the response reports it: a walk of distinct explored
      cells on success, an enclosing explored region on failure. */
  ghost predicate PathReported(grid: Grid, rows: seq<seq<Node>>, resp: Response)
    requires grid.Fits(rows)
  {
    && (resp.success ==>
          && IsWalk(grid, rows, resp.path)
          && resp.pathLength == |resp.path| - 1
          && |resp.exploredNodes| > 0 && resp.exploredNodes[|resp.exploredNodes| - 1] == grid.end
          && (forall i, j :: 0 <= i < j < |resp.path| ==> resp.path[i] != resp.path[j])
          && (forall i :: 0 <= i < |resp.path| ==> resp.path[i] in resp.exploredNodes))
    && (!resp.success ==>
          resp.path == [] && resp.pathLength == 0 && Enclosed(grid, rows, resp.exploredNodes))
  }

  /** The animation frames: none unless asked for, otherwise one per
      explored node, the last one complete exactly when a path was found. */
  ghost predicate FramesReported(animate: bool, resp: Response)
  {
    && (!animate ==> resp.steps == [])
    && (animate ==>
          && |resp.steps| == |resp.exploredNodes|
          && forall i :: 0 <= i < |resp.steps| ==>
               && resp.steps[i].currentNode == resp.exploredNodes[i]
               && resp.steps[i].closedSet == resp.exploredNodes[..i + 1]
               && (resp.steps[i].isComplete <==> resp.success && i == |resp.steps| - 1)
               && resp.steps[i].path == (if resp.steps[i].isComplete then Some(resp.path) else None)
               && forall x :: x in resp.steps[i].openSet ==> x !in resp.steps[i].closedSet)
  }

  /** What the response says about one search; each frame's open set is
      the frontier of its moment. */
  ghost predicate Reported(grid: Grid, rows: seq<seq<Node>>, animate: bool, resp: Response)
    requires grid.Fits(rows)
  {
    && ExploredReported(grid, resp) && PathReported(grid, rows, resp) && FramesReported(animate, resp)
    && FramesFrontier(grid, rows, resp.exploredNodes, resp.steps)
  }

  /** The parent chain of a closed end is a walk from the start through
      distinct closed cells. */
  lemma ChainIsWalk(grid: Grid, walls: seq<seq<Node>>, rows: seq<seq<Node>>, open: seq<Point>,
                    closed: set<Point>, explored: seq<Point>, order: map<Point, nat>, path: seq<Point>)
    requires grid.Fits(walls) && grid.Fits(rows)
    requires SearchInv(grid, walls, rows, open, closed, explored, order, {grid.end})
    requires |path| > 0 && path[|path| - 1] == grid.end
    requires forall i :: 0 <= i < |path| ==> grid.IsValidPoint(path[i]) && path[i] in order
    requires grid.Cell(rows, path[0]).parent == None
    requires forall i :: 0 <= i < |path| - 1 ==> grid.Cell(rows, path[i + 1]).parent == Some(path[i])
    requires forall i, j :: 0 <= i < j < |path| ==> order[path[i]] < order[path[j]]
    ensures IsWalk(grid, walls, path)
    ensures forall i, j :: 0 <= i < j < |path| ==> path[i] != path[j]
    ensures forall i :: 0 <= i < |path| ==> path[i] in explored
  {
    assert grid.start in closed by {
      assert explored[0] in order;
    }
    assert path[0] == grid.start;
    forall i, j | 0 <= i < j < |path| && j == i + 1
      ensures Adjacent(path[i], path[j]) && grid.Passable(walls, path[j])
    {
      assert LinkOk(grid, walls, order, path[j], path[i]);
    }
    ClosedIsExplored(grid, closed, explored, order);
  }

  /** The response of a search that closed the end. */
  lemma FoundReported(grid: Grid, walls: seq<seq<Node>>, rows: seq<seq<Node>>, open: seq<Point>,
                      closed: set<Point>, explored: seq<Point>, order: map<Point, nat>,
                      path: seq<Point>, steps: seq<Step>, animate: bool, resp: Response, prior: seq<Point>)
    requires grid.Fits(walls) && grid.Fits(rows)
    requires SearchInv(grid, walls, rows, open, closed, explored, order, {grid.end})
    requires explored == prior + [grid.end]
    requires StepsSoFar(animate, prior, steps) && FramesFrontier(grid, walls, prior, steps)
    requires OpenIsFrontier(grid, walls, explored, |prior|, open)
    requires IsWalk(grid, walls, path)
    requires forall i, j :: 0 <= i < j < |path| ==> path[i] != path[j]
    requires forall i :: 0 <= i < |path| ==> path[i] in explored
    requires resp == Response(true, path, explored, |path| - 1, |explored|,
                              if animate then steps + [Step(grid.end, open, explored, Some(path), true)] else steps)
    ensures Reported(grid, walls, animate, resp)
  {
    ClosedIsExplored(grid, closed, explored, order);
    assert explored[0] == grid.start by {
      assert explored[0] in order;
    }
    assert ExploredReported(grid, resp);
    assert PathReported(grid, walls, resp);
    FinalFrame(grid, open, closed, explored, order, steps, animate, resp, prior);
    if animate {
      FramesFrontierExtended(grid, walls, prior, steps, grid.end, Step(grid.end, open, explored, Some(path), true));
    }
  }

  /** The frames of a search that closed the end: the earlier ones and a
      final, complete one. */
  lemma FinalFrame(grid: Grid, open: seq<Point>, closed: set<Point>, explored: seq<Point>,
                   order: map<Point, nat>, steps: seq<Step>, animate: bool, resp: Response, prior: seq<Point>)
    requires QueueOk(grid, open, closed) && ClosedOk(grid, closed, explored, order)
    requires explored == prior + [grid.end]
    requires StepsSoFar(animate, prior, steps)
    requires resp.success && resp.exploredNodes == explored
    requires resp.steps == if animate then steps + [Step(grid.end, open, explored, Some(resp.path), true)] else steps
    ensures FramesReported(animate, resp)
  {
    if animate {
      forall i | 0 <= i < |resp.steps|
        ensures resp.steps[i].closedSet == explored[..i + 1]
        ensures forall x :: x in resp.steps[i].openSet ==> x !in resp.steps[i].closedSet
      {
        if i < |steps| {
          assert prior[..i + 1] == explored[..i + 1];
        } else {
          assert explored[..i + 1] == explored;
          forall x | x in open
            ensures x !in explored
          {
            var k :| 0 <= k < |open| && open[k] == x;
          }
        }
      }
    }
  }

  /** The response of a search that ran out of queued nodes. */
  lemma NotFoundReported(grid: Grid, walls: seq<seq<Node>>, rows: seq<seq<Node>>,
                         closed: set<Point>, explored: seq<Point>, order: map<Point, nat>,
                         steps: seq<Step>, animate: bool, resp: Response)
    requires grid.Fits(walls) && grid.Fits(rows)
    requires SearchInv(grid, walls, rows, [], closed, explored, order, {})
    requires grid.end !in closed
    requires StepsSoFar(animate, explored, steps) && FramesFrontier(grid, walls, explored, steps)
    requires resp == Response(false, [], explored, 0, |explored|, steps)
    ensures Reported(grid, walls, animate, resp)
    ensures forall p :: grid.IsValidPoint(p) ==>
      (grid.Cell(rows, p).visited <==> p in explored) && !grid.Cell(rows, p).isPath
  {
    ClosedIsExplored(grid, closed, explored, order);
    FailedSearchEncloses(grid, walls, rows, closed, explored, order);
    assert explored[0] == grid.start by {
      assert explored[0] in order;
    }
    assert ExploredReported(grid, resp);
  }

  /** The end has just been closed: rebuild the path, flag its inner nodes
      and answer with it. */
  method Finish(grid: Grid, openSet: PriorityQueue, closed: set<Point>, explored: seq<Point>,
                steps: seq<Step>, animate: bool, ghost walls: seq<seq<Node>>, ghost order: map<Point, nat>,
                ghost prior: seq<Point>)
      returns (resp: Response)
    requires grid.WellFormed() && grid.Fits(walls) && SameStructure(grid, walls, grid.nodes)
    requires explored == prior + [grid.end]
    requires SearchInv(grid, walls, grid.nodes, openSet.items, closed, explored, order, {grid.end})
    requires StepsSoFar(animate, prior, steps) && FramesFrontier(grid, walls, prior, steps)
    requires OpenIsFrontier(grid, walls, explored, |prior|, openSet.items)
    modifies grid
    ensures grid.WellFormed() && SameStructure(grid, walls, grid.nodes)
    ensures resp.success && resp.exploredNodes == explored && Reported(grid, walls, animate, resp)
    ensures forall p :: grid.IsValidPoint(p) ==>
      (grid.Cell(grid.nodes, p).visited <==> p in explored) &&
      (grid.Cell(grid.nodes, p).isPath <==> p in resp.path && p != grid.start && p != grid.end)
  {
    ghost var rows := grid.nodes;
    var endPoint := explored[|explored| - 1];
    assert endPoint in order;
    var path := ReconstructPath(grid, endPoint, order);
    ChainIsWalk(grid, walls, rows, openSet.items, closed, explored, order, path);
    ClosedIsExplored(grid, closed, explored, order);
    MarkPath(grid, path);
    var finalSteps := steps;
    if animate {
      var openPoints := GetOpenSetPoints(openSet);
      assert openPoints == openSet.items;
      finalSteps := steps + [Step(endPoint, openPoints, explored, Some(path), true)];
    }
    resp := Response(true, path, explored, |path| - 1, |explored|, finalSteps);
    FoundReported(grid, walls, rows, openSet.items, closed, explored, order, path, steps, animate, resp, prior);
  }

  /** The state right after the start was queued satisfies the invariant. */
  lemma InitialInv(grid: Grid, walls: seq<seq<Node>>, cleared: seq<seq<Node>>, rows: seq<seq<Node>>)
    requires grid.Fits(walls) && grid.Fits(cleared) && grid.IsValidPoint(grid.start)
    requires forall p :: grid.IsValidPoint(p) ==> grid.Cell(cleared, p) == Cleared(grid.Cell(walls, p))
    requires rows == grid.Put(cleared, grid.start, grid.Cell(cleared, grid.start).(g := 0, inOpenSet := true))
    ensures SameStructure(grid, walls, rows)
    ensures SearchInv(grid, walls, rows, [grid.start], {}, [], map[], {})
  {
    assert FlagsOk(grid, rows, [grid.start], {});
  }

  /** Records the frame of the just-closed `current` (when animating) and
      discovers its neighbours: the rest of an A* iteration that did not
      reach the end. */
  method Advance(grid: Grid, openSet: PriorityQueue, current: Point, closed: set<Point>,
                 explored: seq<Point>, steps: seq<Step>, animate: bool,
                 ghost walls: seq<seq<Node>>, ghost order: map<Point, nat>, ghost prior: seq<Point>)
      returns (steps': seq<Step>)
    requires grid.WellFormed() && grid.Fits(walls) && SameStructure(grid, walls, grid.nodes)
    requires explored == prior + [current] && current in closed
    requires SearchInv(grid, walls, grid.nodes, openSet.items, closed, explored, order, {current})
    requires StepsSoFar(animate, prior, steps) && FramesFrontier(grid, walls, prior, steps)
    requires OpenIsFrontier(grid, walls, explored, |prior|, openSet.items)
    modifies grid, openSet
    ensures grid.WellFormed() && SameStructure(grid, walls, grid.nodes)
    ensures SearchInv(grid, walls, grid.nodes, openSet.items, closed, explored, order, {})
    ensures StepsSoFar(animate, explored, steps') && FramesFrontier(grid, walls, explored, steps')
  {
    ClosedIsExplored(grid, closed, explored, order);
    var openPoints := [];
    if animate {
      openPoints := GetOpenSetPoints(openSet);
      assert openPoints == openSet.items;
    }
    StepRecorded(grid, walls, animate, prior, steps, current, openPoints);
    steps' := steps;
    if animate {
      steps' := steps + [Step(current, openPoints, explored, None, false)];
    }
    ExpandNeighbors(grid, openSet, current, closed, walls, explored, order);
  }

  /** Clears the grid and queues the start: the state before the first A*
      iteration. */
  method Begin(grid: Grid) returns (openSet: PriorityQueue)
    requires grid.WellFormed() && grid.IsValidPoint(grid.start)
    modifies grid
    ensures fresh(openSet) && grid.WellFormed() && SameStructure(grid, old(grid.nodes), grid.nodes)
    ensures SearchInv(grid, old(grid.nodes), grid.nodes, openSet.items, {}, [], map[], {})
  {
    ghost var walls := grid.nodes;
    grid.ResetGrid();
    ghost var cleared := grid.nodes;
    var startNode := grid.nodes[grid.start.y][grid.start.x];
    grid.nodes := grid.Put(grid.nodes, grid.start, startNode.(g := 0, inOpenSet := true));
    openSet := new PriorityQueue();
    openSet.Push(grid.start);
    InitialInv(grid, walls, cleared, grid.nodes);
  }

  /** One A* iteration: close the next queued node; answer when it is the
      end, otherwise record its frame and discover its neighbours. */
  method Iterate(grid: Grid, openSet: PriorityQueue, pops: seq<nat>, closed: set<Point>,
                 explored: seq<Point>, steps: seq<Step>, animate: bool,
                 ghost walls: seq<seq<Node>>, ghost order: map<Point, nat>)
      returns (current: Point, closed': set<Point>, explored': seq<Point>, steps': seq<Step>,
               ghost order': map<Point, nat>, answer: Option<Response>)
    requires grid.WellFormed() && grid.Fits(walls) && SameStructure(grid, walls, grid.nodes)
    requires SearchInv(grid, walls, grid.nodes, openSet.items, closed, explored, order, {})
    requires |openSet.items| > 0 && grid.end !in closed
    requires StepsSoFar(animate, explored, steps) && FramesFrontier(grid, walls, explored, steps)
    modifies grid, openSet
    ensures grid.WellFormed() && SameStructure(grid, walls, grid.nodes)
    ensures current == old(openSet.items)[PopIndex(pops, |explored|, |old(openSet.items)|)]
    ensures current !in closed && closed' == closed + {current} && explored' == explored + [current]
    ensures answer.Some? <==> current == grid.end
    ensures answer.Some? ==> answer.value.success && answer.value.exploredNodes == explored'
    ensures answer.Some? ==> Reported(grid, walls, animate, answer.value)
    ensures answer.Some? ==> forall p :: grid.IsValidPoint(p) ==>
      (grid.Cell(grid.nodes, p).visited <==> p in answer.value.exploredNodes) &&
      (grid.Cell(grid.nodes, p).isPath <==>
         answer.value.success && p in answer.value.path && p != grid.start && p != grid.end)
    ensures answer.None? ==>
      && SearchInv(grid, walls, grid.nodes, openSet.items, closed', explored', order', {})
      && grid.end !in closed'
      && StepsSoFar(animate, explored', steps') && FramesFrontier(grid, walls, explored', steps')
      && |AllCells(grid) - closed'| < |AllCells(grid) - closed|
  {
    ClosedIsExplored(grid, closed, explored, order);
    current, closed', explored', order' := CloseNext(grid, openSet, pops, closed, explored, walls, order);
    ClosingShrinks(grid, closed, current);
    QueueIsFrontier(grid, walls, grid.nodes, openSet.items, closed', explored', order', current);
    steps' := steps;
    if current == grid.end {
      var resp := Finish(grid, openSet, closed', explored', steps, animate, walls, order', explored);
      answer := Some(resp);
    } else {
      steps' := Advance(grid, openSet, current, closed', explored', steps, animate, walls, order', explored);
      answer := None;
    }
  }

  /** The A* search from the grid's start to its end. */
  method AStar(grid: Grid, animate: bool, pops: seq<nat>) returns (resp: Response)
    requires grid.WellFormed() && grid.IsValidPoint(grid.start)
    modifies grid
    ensures grid.WellFormed() && SameStructure(grid, old(grid.nodes), grid.nodes)
    ensures Reported(grid, old(grid.nodes), animate, resp)
    ensures forall p :: grid.IsValidPoint(p) ==>
      (grid.Cell(grid.nodes, p).visited <==> p in resp.exploredNodes) &&
      (grid.Cell(grid.nodes, p).isPath <==> resp.success && p in resp.path && p != grid.start && p != grid.end)
  {
    ghost var walls := grid.nodes;
    var openSet := Begin(grid);
    var closed: set<Point> := {};
    var explored: seq<Point> := [];
    ghost var order: map<Point, nat> := map[];
    var steps: seq<Step> := [];
    while openSet.Len() > 0
      invariant fresh(openSet)
      invariant grid.WellFormed() && grid.Fits(walls) && SameStructure(grid, walls, grid.nodes)
      invariant SearchInv(grid, walls, grid.nodes, openSet.items, closed, explored, order, {})
      invariant grid.end !in closed
      invariant StepsSoFar(animate, explored, steps) && FramesFrontier(grid, walls, explored, steps)
      decreases |AllCells(grid) - closed|
    {
      var current, answer;
      current, closed, explored, steps, order, answer := Iterate(grid, openSet, pops, closed, explored, steps, animate, walls, order);
      if answer.Some? {
        return answer.value;
      }
    }
    resp := Response(false, [], explored, 0, |explored|, steps);
    NotFoundReported(grid, walls, grid.nodes, closed, explored, order, steps, animate, resp);
  }
}
