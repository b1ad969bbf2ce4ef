/** The browser's grid (web/static/js/app.js) as values: its nodes, the
    edits the user makes, what a search result or an animation frame paints,
    and the colour a node is drawn in. The `Visualizer` class applies these
    in place. */
module ClientGrid {
  import opened Common

  /** A browser-side node: the structural flags the user edits (wall, start,
      end) and the transient flags a search result paints. */
  datatype Node = Node(point: Point, isWall: bool, isStart: bool, isEnd: bool,
                       isPath: bool, visited: bool, inOpenSet: bool)

  /** The grid object the page keeps and sends to the server. */
  datatype Board = Board(width: int, height: int, start: Point, end: Point, nodes: seq<seq<Node>>)

  predicate IsMarker(v: Node)
  {
    v.isStart || v.isEnd
  }

  /** `p` is a cell of an `n`-by-`n` grid. */
  predicate Inside(n: int, p: Point)
  {
    0 <= p.x < n && 0 <= p.y < n
  }

  /** `rows` holds `n` rows of `n` nodes. */
  ghost predicate Square(n: int, rows: seq<seq<Node>>)
  {
    |rows| == n && forall y :: 0 <= y < n ==> |rows[y]| == n
  }

  function At(n: int, rows: seq<seq<Node>>, p: Point): Node
    requires Square(n, rows) && Inside(n, p)
  {
    rows[p.y][p.x]
  }

  /** `rows` with the node at `p` replaced by `v`. */
  function Put(n: int, rows: seq<seq<Node>>, p: Point, v: Node): (r: seq<seq<Node>>)
    requires Square(n, rows) && Inside(n, p)
    ensures Square(n, r) && At(n, r, p) == v
    ensures forall q :: Inside(n, q) && q != p ==> At(n, r, q) == At(n, rows, q)
  {
    rows[p.y := rows[p.y][p.x := v]]
  }

  /** Two grids of one size that agree on every cell are the same grid. */
  lemma SameCells(n: int, a: seq<seq<Node>>, b: seq<seq<Node>>)
    requires Square(n, a) && Square(n, b)
    requires forall p :: Inside(n, p) ==> At(n, a, p) == At(n, b, p)
    ensures a == b
  {
    forall y | 0 <= y < n
      ensures a[y] == b[y]
    {
      forall x | 0 <= x < n
        ensures a[y][x] == b[y][x]
      {
        assert At(n, a, Point(x, y)) == At(n, b, Point(x, y));
      }
    }
  }

  /** The grid with `f` applied to every node, given its position. */
  function MapCells(n: int, rows: seq<seq<Node>>, f: (Point, Node) -> Node): (r: seq<seq<Node>>)
    requires Square(n, rows)
    ensures Square(n, r)
    ensures forall p :: Inside(n, p) ==> At(n, r, p) == f(p, At(n, rows, p))
  {
    seq(n, y requires 0 <= y < n => seq(n, x requires 0 <= x < n => f(Point(x, y), rows[y][x])))
  }

  /** Every node records its own position. */
  ghost predicate PointsOk(n: int, rows: seq<seq<Node>>)
    requires Square(n, rows)
  {
    forall p :: Inside(n, p) ==> At(n, rows, p).point == p
  }

  /** The markers the page relies on: the node at `start` is the only one
      flagged start, the node at `end` the only one flagged end, and no
      marker node is a wall. */
  ghost predicate WellMarked(n: int, rows: seq<seq<Node>>, start: Point, end: Point)
    requires Square(n, rows)
  {
    && Inside(n, start) && Inside(n, end)
    && forall p :: Inside(n, p) ==>
         && (At(n, rows, p).isStart <==> p == start)
         && (At(n, rows, p).isEnd <==> p == end)
         && (At(n, rows, p).isWall ==> !IsMarker(At(n, rows, p)))
  }

  /** The same positions, walls and markers in both grids. */
  ghost predicate SameStructure(n: int, a: seq<seq<Node>>, b: seq<seq<Node>>)
    requires Square(n, a) && Square(n, b)
  {
    forall p :: Inside(n, p) ==>
      var u, v := At(n, a, p), At(n, b, p);
      u.point == v.point && u.isWall == v.isWall && u.isStart == v.isStart && u.isEnd == v.isEnd
  }

  /** Changing only transient flags keeps the markers and the positions. */
  lemma SameStructureKeepsMarks(n: int, a: seq<seq<Node>>, b: seq<seq<Node>>, start: Point, end: Point)
    requires Square(n, a) && Square(n, b) && SameStructure(n, a, b)
    ensures WellMarked(n, a, start, end) ==> WellMarked(n, b, start, end)
    ensures PointsOk(n, a) ==> PointsOk(n, b)
  {
  }

  // ---- createGrid ----

  /** Where createGrid puts the start and the end on an `n`-by-`n` grid. */
  const DefaultStart: Point := Point(1, 1)

  function DefaultEnd(n: int): Point
  {
    Point(n - 2, n - 2)
  }

  /** The node createGrid puts at `p`: no flag set but the markers. */
  function NewNode(p: Point, start: Point, end: Point): Node
  {
    Node(p, false, p == start, p == end, false, false, false)
  }

  /** A new grid records positions; its markers are inside exactly when it
      has at least two rows, and they are distinct unless it has three. */
  lemma NewGridMarked(n: int, rows: seq<seq<Node>>)
    requires Square(n, rows)
    requires forall p :: Inside(n, p) ==> At(n, rows, p) == NewNode(p, DefaultStart, DefaultEnd(n))
    ensures PointsOk(n, rows)
    ensures WellMarked(n, rows, DefaultStart, DefaultEnd(n)) <==> n >= 2
    ensures n >= 2 ==> (DefaultStart != DefaultEnd(n) <==> n != 3)
  {
  }

  // ---- toggleWall ----

  /** toggleWall: flips the wall of a node that is not a marker. */
  function Toggled(n: int, rows: seq<seq<Node>>, p: Point): (r: seq<seq<Node>>)
    requires Square(n, rows) && Inside(n, p)
    ensures Square(n, r)
  {
    var v := At(n, rows, p);
    if IsMarker(v) then rows else Put(n, rows, p, v.(isWall := !v.isWall))
  }

  /** Toggling a node twice restores the grid, so dragging back and forth
      over one cell leaves no trace after an even number of moves. */
  lemma ToggleTwice(n: int, rows: seq<seq<Node>>, p: Point)
    requires Square(n, rows) && Inside(n, p)
    ensures Toggled(n, Toggled(n, rows, p), p) == rows
  {
    var once := Toggled(n, rows, p);
    SameCells(n, Toggled(n, once, p), rows);
  }

  /** Toggling leaves every other node alone and keeps the markers. */
  lemma ToggleKeepsMarks(n: int, rows: seq<seq<Node>>, p: Point, start: Point, end: Point)
    requires Square(n, rows) && Inside(n, p)
    ensures forall q :: Inside(n, q) && q != p ==> At(n, Toggled(n, rows, p), q) == At(n, rows, q)
    ensures IsMarker(At(n, rows, p)) ==> Toggled(n, rows, p) == rows
    ensures WellMarked(n, rows, start, end) ==> WellMarked(n, Toggled(n, rows, p), start, end)
    ensures PointsOk(n, rows) ==> PointsOk(n, Toggled(n, rows, p))
  {
  }

  // ---- setStart / setEnd ----

  /** setStart: the old start node loses its flag, the node at `to` gets it
      and stops being a wall. */
  function WithStart(n: int, rows: seq<seq<Node>>, from: Point, to: Point): (r: seq<seq<Node>>)
    requires Square(n, rows) && Inside(n, from) && Inside(n, to)
    ensures Square(n, r)
  {
    var cleared := Put(n, rows, from, At(n, rows, from).(isStart := false));
    Put(n, cleared, to, At(n, cleared, to).(isStart := true, isWall := false))
  }

  /** setEnd, the same for the end flag. */
  function WithEnd(n: int, rows: seq<seq<Node>>, from: Point, to: Point): (r: seq<seq<Node>>)
    requires Square(n, rows) && Inside(n, from) && Inside(n, to)
    ensures Square(n, r)
  {
    var cleared := Put(n, rows, from, At(n, rows, from).(isEnd := false));
    Put(n, cleared, to, At(n, cleared, to).(isEnd := true, isWall := false))
  }

  /** Moving the start keeps the markers well placed, touches only the old
      and the new start node, and does not look at the end: the new start
      node also carries the end flag exactly when it is the end's cell. */
  lemma MoveStartKeepsMarks(n: int, rows: seq<seq<Node>>, start: Point, end: Point, to: Point)
    requires Square(n, rows) && WellMarked(n, rows, start, end) && Inside(n, to)
    ensures WellMarked(n, WithStart(n, rows, start, to), to, end)
    ensures At(n, WithStart(n, rows, start, to), to).isEnd <==> to == end
    ensures forall q :: Inside(n, q) && q != start && q != to ==>
      At(n, WithStart(n, rows, start, to), q) == At(n, rows, q)
    ensures PointsOk(n, rows) ==> PointsOk(n, WithStart(n, rows, start, to))
  {
  }

  /** The same for moving the end. */
  lemma MoveEndKeepsMarks(n: int, rows: seq<seq<Node>>, start: Point, end: Point, to: Point)
    requires Square(n, rows) && WellMarked(n, rows, start, end) && Inside(n, to)
    ensures WellMarked(n, WithEnd(n, rows, end, to), start, to)
    ensures At(n, WithEnd(n, rows, end, to), to).isStart <==> to == start
    ensures forall q :: Inside(n, q) && q != end && q != to ==>
      At(n, WithEnd(n, rows, end, to), q) == At(n, rows, q)
    ensures PointsOk(n, rows) ==> PointsOk(n, WithEnd(n, rows, end, to))
  {
  }

  // ---- clearVisualization / clearWalls / generateMaze ----

  /** A node with its transient flags cleared. */
  function Unvisited(v: Node): Node
  {
    v.(visited := false, inOpenSet := false, isPath := false)
  }

  /** clearVisualization. */
  function ClearedBoard(n: int, rows: seq<seq<Node>>): (r: seq<seq<Node>>)
    requires Square(n, rows)
    ensures Square(n, r)
  {
    MapCells(n, rows, (p: Point, v: Node) => Unvisited(v))
  }

  /** Clearing leaves no transient flag, keeps the structure, and clearing
      again changes nothing. */
  lemma ClearedBoardShows(n: int, rows: seq<seq<Node>>)
    requires Square(n, rows)
    ensures forall p :: Inside(n, p) ==>
      var v := At(n, ClearedBoard(n, rows), p);
      !v.visited && !v.inOpenSet && !v.isPath
    ensures SameStructure(n, rows, ClearedBoard(n, rows))
    ensures ClearedBoard(n, ClearedBoard(n, rows)) == ClearedBoard(n, rows)
  {
    SameCells(n, ClearedBoard(n, ClearedBoard(n, rows)), ClearedBoard(n, rows));
  }

  /** A node without its wall, unless it is a marker. */
  function Unwalled(v: Node): Node
  {
    if IsMarker(v) then v else v.(isWall := false)
  }

  /** clearWalls. */
  function WallsCleared(n: int, rows: seq<seq<Node>>): (r: seq<seq<Node>>)
    requires Square(n, rows)
    ensures Square(n, r)
  {
    MapCells(n, rows, (p: Point, v: Node) => Unwalled(v))
  }

  /** With the markers well placed, clearing walls leaves no wall at all
      and touches nothing but walls. */
  lemma WallsClearedShows(n: int, rows: seq<seq<Node>>, start: Point, end: Point)
    requires Square(n, rows) && WellMarked(n, rows, start, end)
    ensures forall p :: Inside(n, p) ==> !At(n, WallsCleared(n, rows), p).isWall
    ensures forall p :: Inside(n, p) ==> At(n, WallsCleared(n, rows), p) == At(n, rows, p).(isWall := false)
    ensures WellMarked(n, WallsCleared(n, rows), start, end)
  {
  }

  /** The chance `Math.random() < 0.3` of a wall on each cell of a maze. */
  const WallChance: real := 0.3

  /** The random number drawn for cell number `k` in row-major order; an
      exhausted supply reads as no wall. */
  function Draw(draws: seq<real>, k: int): real
  {
    if 0 <= k < |draws| then draws[k] else 1.0
  }

  function MazeNode(v: Node, draw: real): Node
  {
    if !IsMarker(v) && draw < WallChance then v.(isWall := true) else v
  }

  /** A wall on each non-marker cell whose draw is under `WallChance`. */
  function WallsDrawn(n: int, rows: seq<seq<Node>>, draws: seq<real>): (r: seq<seq<Node>>)
    requires Square(n, rows)
    ensures Square(n, r)
  {
    MapCells(n, rows, (p: Point, v: Node) => MazeNode(v, Draw(draws, p.y * n + p.x)))
  }

  /** generateMaze: clearWalls, then the drawn walls. */
  function Maze(n: int, rows: seq<seq<Node>>, draws: seq<real>): (r: seq<seq<Node>>)
    requires Square(n, rows)
    ensures Square(n, r)
  {
    WallsDrawn(n, WallsCleared(n, rows), draws)
  }

  /** The walls of a maze are exactly the non-marker cells whose draw came
      under `WallChance`; markers stay where they were. */
  lemma MazeWalls(n: int, rows: seq<seq<Node>>, draws: seq<real>, start: Point, end: Point)
    requires Square(n, rows) && WellMarked(n, rows, start, end)
    ensures forall p :: Inside(n, p) ==>
      (At(n, Maze(n, rows, draws), p).isWall <==> p != start && p != end && Draw(draws, p.y * n + p.x) < WallChance)
    ensures WellMarked(n, Maze(n, rows, draws), start, end)
    ensures forall p :: Inside(n, p) ==> At(n, Maze(n, rows, draws), p).point == At(n, rows, p).point
  {
  }

  // ---- painting a result or a frame ----

  /** The four ways a node is painted: closed and open cells of a frame,
      path cells, and explored cells of a result shown without frames. */
  datatype Paint = Closed | Open | OnPath | Reached

  /** A node painted, unless it is a marker (and, for `Explored`, unless it
      is already on the path). */
  function Painted(v: Node, paint: Paint): Node
  {
    if IsMarker(v) then v
    else match paint
      case Closed => v.(visited := true)
      case Open => v.(inOpenSet := true)
      case OnPath => v.(isPath := true)
      case Reached => if v.isPath then v else v.(visited := true)
  }

  /** Every node whose position is among `points` painted. */
  function PaintAll(n: int, rows: seq<seq<Node>>, points: seq<Point>, paint: Paint): (r: seq<seq<Node>>)
    requires Square(n, rows)
    ensures Square(n, r)
  {
    MapCells(n, rows, (p: Point, v: Node) => if p in points then Painted(v, paint) else v)
  }

  /** displayResult: the path, then the explored cells not on it. */
  function Displayed(n: int, rows: seq<seq<Node>>, result: Response): (r: seq<seq<Node>>)
    requires Square(n, rows)
    ensures Square(n, r)
  {
    PaintAll(n, PaintAll(n, rows, result.path, OnPath), result.exploredNodes, Reached)
  }

  /** The node at `p` in an animation frame: its transient flags cleared
      and, unless it is a marker, set as the step lists the point. */
  function FrameCell(step: Step, p: Point, v: Node): Node
  {
    if IsMarker(v) then Unvisited(v)
    else v.(visited := p in step.closedSet, inOpenSet := p in step.openSet,
            isPath := step.isComplete && step.path.Some? && p in step.path.value)
  }

  /** One animation frame, cell by cell. `FramePainted` shows that it is
      what clearing and then painting the step's closed cells, open cells
      and (when the step is complete) path cells leaves. */
  function Frame(n: int, rows: seq<seq<Node>>, step: Step): (r: seq<seq<Node>>)
    requires Square(n, rows)
    ensures Square(n, r)
  {
    MapCells(n, rows, (p: Point, v: Node) => FrameCell(step, p, v))
  }

  /** Clearing, then painting the closed, open and path cells in turn,
      gives the frame. */
  lemma FramePainted(n: int, rows: seq<seq<Node>>, step: Step)
    requires Square(n, rows)
    ensures
      var seen := PaintAll(n, PaintAll(n, ClearedBoard(n, rows), step.closedSet, Closed), step.openSet, Open);
      (if step.isComplete && step.path.Some? then PaintAll(n, seen, step.path.value, OnPath) else seen)
        == Frame(n, rows, step)
  {
    var seen := PaintAll(n, PaintAll(n, ClearedBoard(n, rows), step.closedSet, Closed), step.openSet, Open);
    var painted := if step.isComplete && step.path.Some? then PaintAll(n, seen, step.path.value, OnPath) else seen;
    SameCells(n, painted, Frame(n, rows, step));
  }

  /** What a frame shows: marker nodes carry no transient flag; any other
      node is visited, open or on the path exactly when the step lists it so. */
  lemma FrameShows(n: int, rows: seq<seq<Node>>, step: Step)
    requires Square(n, rows)
    ensures SameStructure(n, rows, Frame(n, rows, step))
    ensures forall p :: Inside(n, p) ==>
      var v := At(n, Frame(n, rows, step), p);
      && (IsMarker(v) ==> !v.visited && !v.inOpenSet && !v.isPath)
      && (!IsMarker(v) ==>
            && (v.visited <==> p in step.closedSet)
            && (v.inOpenSet <==> p in step.openSet)
            && (v.isPath <==> step.isComplete && step.path.Some? && p in step.path.value))
  {
  }

  /** A frame depends only on the step and the structure, not on what was
      painted before. */
  lemma FrameForgetsHistory(n: int, rows: seq<seq<Node>>, earlier: Step, step: Step)
    requires Square(n, rows)
    ensures Frame(n, Frame(n, rows, earlier), step) == Frame(n, rows, step)
  {
    FrameShows(n, rows, earlier);
    FrameShows(n, Frame(n, rows, earlier), step);
    FrameShows(n, rows, step);
    SameCells(n, Frame(n, Frame(n, rows, earlier), step), Frame(n, rows, step));
  }

  // ---- painting points that may lie off the grid ----

  /** Every point a frame paints is a cell of the grid. */
  predicate StepInside(n: int, step: Step)
  {
    && (forall i :: 0 <= i < |step.closedSet| ==> Inside(n, step.closedSet[i]))
    && (forall i :: 0 <= i < |step.openSet| ==> Inside(n, step.openSet[i]))
    && (step.isComplete && step.path.Some? ==>
          forall i :: 0 <= i < |step.path.value| ==> Inside(n, step.path.value[i]))
  }

  /** Every point `displayResult` paints is a cell of the grid. */
  predicate ResultInside(n: int, result: Response)
  {
    && (forall i :: 0 <= i < |result.path| ==> Inside(n, result.path[i]))
    && (forall i :: 0 <= i < |result.exploredNodes| ==> Inside(n, result.exploredNodes[i]))
  }

  /** How many of `points`, from the first on, are cells of the grid. A
      `forEach` over them paints that many nodes and then throws: the next
      point indexes a row or a node that does not exist. */
  function Reach(n: int, points: seq<Point>): (k: nat)
    ensures k <= |points|
    ensures forall i :: 0 <= i < k ==> Inside(n, points[i])
    ensures k < |points| ==> !Inside(n, points[k])
  {
    if points == [] || !Inside(n, points[0]) then 0
    else
      var k := 1 + Reach(n, points[1..]);
      assert forall i :: 1 <= i < k ==> points[i] == points[1..][i - 1];
      k
  }

  /** What a stretch of painting leaves behind: the nodes, and whether it
      ran to its end (`ok`) or threw part way. */
  datatype Attempt = Attempt(rows: seq<seq<Node>>, ok: bool)

  /** One `forEach` over `points`: the nodes up to the first point off the
      grid painted. */
  function PaintReach(n: int, rows: seq<seq<Node>>, points: seq<Point>, paint: Paint): (a: Attempt)
    requires Square(n, rows)
    ensures Square(n, a.rows)
  {
    var k := Reach(n, points);
    Attempt(PaintAll(n, rows, points[..k], paint), k == |points|)
  }

  /** A frame as the page paints it whatever its points: cleared, then the
      closed, open and path cells in turn, stopping at the first point off
      the grid. */
  function TryFrame(n: int, rows: seq<seq<Node>>, step: Step): (a: Attempt)
    requires Square(n, rows)
    ensures Square(n, a.rows)
  {
    var closed := PaintReach(n, ClearedBoard(n, rows), step.closedSet, Closed);
    if !closed.ok then closed
    else
      var open := PaintReach(n, closed.rows, step.openSet, Open);
      if !open.ok || !(step.isComplete && step.path.Some?) then open
      else PaintReach(n, open.rows, step.path.value, OnPath)
  }

  /** Painting changes no wall, marker or position. */
  lemma PaintKeepsStructure(n: int, rows: seq<seq<Node>>, points: seq<Point>, paint: Paint)
    requires Square(n, rows)
    ensures SameStructure(n, rows, PaintAll(n, rows, points, paint))
  {
  }

  /** A frame throws exactly when one of its points is off the grid; when
      none is, it paints `Frame`. Either way walls, markers and positions
      stay. */
  lemma TryFrameShows(n: int, rows: seq<seq<Node>>, step: Step)
    requires Square(n, rows)
    ensures TryFrame(n, rows, step).ok <==> StepInside(n, step)
    ensures StepInside(n, step) ==> TryFrame(n, rows, step).rows == Frame(n, rows, step)
    ensures SameStructure(n, rows, TryFrame(n, rows, step).rows)
  {
    var cleared := ClearedBoard(n, rows);
    ClearedBoardShows(n, rows);
    var closed := PaintReach(n, cleared, step.closedSet, Closed);
    PaintKeepsStructure(n, cleared, step.closedSet[..Reach(n, step.closedSet)], Closed);
    if closed.ok {
      var open := PaintReach(n, closed.rows, step.openSet, Open);
      PaintKeepsStructure(n, closed.rows, step.openSet[..Reach(n, step.openSet)], Open);
      if open.ok && step.isComplete && step.path.Some? {
        var path := step.path.value;
        PaintKeepsStructure(n, open.rows, path[..Reach(n, path)], OnPath);
      }
    }
    if StepInside(n, step) {
      TryFrameIsFrame(n, rows, step);
    }
  }

  /** A frame whose points are all on the grid paints `Frame`. */
  lemma TryFrameIsFrame(n: int, rows: seq<seq<Node>>, step: Step)
    requires Square(n, rows) && StepInside(n, step)
    ensures TryFrame(n, rows, step).rows == Frame(n, rows, step)
  {
    assert step.closedSet[..Reach(n, step.closedSet)] == step.closedSet;
    assert step.openSet[..Reach(n, step.openSet)] == step.openSet;
    if step.isComplete && step.path.Some? {
      assert step.path.value[..Reach(n, step.path.value)] == step.path.value;
    }
    FramePainted(n, rows, step);
  }

  /** `displayResult` whatever its points: the path, then the explored
      cells, stopping at the first point off the grid. */
  function TryDisplay(n: int, rows: seq<seq<Node>>, result: Response): (a: Attempt)
    requires Square(n, rows)
    ensures Square(n, a.rows)
  {
    var path := PaintReach(n, rows, result.path, OnPath);
    if !path.ok then path else PaintReach(n, path.rows, result.exploredNodes, Reached)
  }

  /** `displayResult` throws exactly when a point of the result is off the
      grid; when none is, it paints `Displayed`. Either way walls, markers
      and positions stay. */
  lemma TryDisplayShows(n: int, rows: seq<seq<Node>>, result: Response)
    requires Square(n, rows)
    ensures TryDisplay(n, rows, result).ok <==> ResultInside(n, result)
    ensures ResultInside(n, result) ==> TryDisplay(n, rows, result).rows == Displayed(n, rows, result)
    ensures SameStructure(n, rows, TryDisplay(n, rows, result).rows)
  {
    var path := PaintReach(n, rows, result.path, OnPath);
    PaintKeepsStructure(n, rows, result.path[..Reach(n, result.path)], OnPath);
    if path.ok {
      assert result.path[..Reach(n, result.path)] == result.path;
      var explored := result.exploredNodes;
      PaintKeepsStructure(n, path.rows, explored[..Reach(n, explored)], Reached);
      if Reach(n, explored) == |explored| {
        assert explored[..Reach(n, explored)] == explored;
      }
    }
  }

  // ---- colours ----

  /** The colours of the page; `Current` highlights a frame's node. */
  datatype Color = Empty | Wall | Start | End | Explored | PathColor | OpenSet | Current

  /** The node carries the flag colour `c` stands for (`Empty` needs none;
      `Current` is never chosen from flags). */
  predicate Shows(v: Node, c: Color)
  {
    match c
    case Empty => true
    case Wall => v.isWall
    case Start => v.isStart
    case End => v.isEnd
    case PathColor => v.isPath
    case OpenSet => v.inOpenSet
    case Explored => v.visited
    case Current => false
  }

  /** Which flag wins when several are set. */
  function Rank(c: Color): nat
  {
    match c
    case Empty => 0
    case Explored => 1
    case OpenSet => 2
    case PathColor => 3
    case End => 4
    case Start => 5
    case Wall => 6
    case Current => 0
  }

  /** The colour `draw` fills a node with: of the flags the node carries,
      the one of highest rank. */
  function CellColor(v: Node): (c: Color)
    ensures Shows(v, c)
    ensures forall d :: Shows(v, d) ==> Rank(d) <= Rank(c)
    ensures forall d :: Shows(v, d) && Rank(d) == Rank(c) ==> d == c
  {
    if v.isWall then Wall
    else if v.isStart then Start
    else if v.isEnd then End
    else if v.isPath then PathColor
    else if v.inOpenSet then OpenSet
    else if v.visited then Explored
    else Empty
  }

  /** Shown on a cleared grid with well placed markers, a result colours
      the markers and walls as before, the path cells (markers and walls
      aside) as path, the other explored cells as explored, and the rest
      empty. */
  lemma DisplayedColors(n: int, rows: seq<seq<Node>>, result: Response, start: Point, end: Point)
    requires Square(n, rows) && WellMarked(n, rows, start, end)
    requires forall p :: Inside(n, p) ==> var v := At(n, rows, p); !v.visited && !v.inOpenSet && !v.isPath
    ensures SameStructure(n, rows, Displayed(n, rows, result))
    ensures forall p :: Inside(n, p) ==>
      var c, w := CellColor(At(n, Displayed(n, rows, result), p)), At(n, rows, p).isWall;
      && (p == start ==> c == Start)
      && (p == end && p != start ==> c == End)
      && (p != start && p != end ==>
            && (w ==> c == Wall)
            && (!w && p in result.path ==> c == PathColor)
            && (!w && p !in result.path && p in result.exploredNodes ==> c == Explored)
            && (!w && p !in result.path && p !in result.exploredNodes ==> c == Empty))
  {
    var onPath := PaintAll(n, rows, result.path, OnPath);
    forall p | Inside(n, p)
      ensures var v := At(n, Displayed(n, rows, result), p);
        && v.point == At(n, rows, p).point && v.isWall == At(n, rows, p).isWall
        && v.isStart == (p == start) && v.isEnd == (p == end) && !v.inOpenSet
        && (!IsMarker(v) ==> (v.isPath <==> p in result.path))
        && (!IsMarker(v) ==> (v.visited <==> p !in result.path && p in result.exploredNodes))
    {
      assert At(n, Displayed(n, rows, result), p) ==
        (if p in result.exploredNodes then Painted(At(n, onPath, p), Reached) else At(n, onPath, p));
    }
  }

  /** How many frames the player shows from the cursor `from` on: one per
      step up to and including the first complete one. */
  function FramesShown(steps: seq<Step>, from: nat): (k: nat)
    ensures from <= |steps| ==> from + k <= |steps|
    decreases |steps| - from
  {
    if from >= |steps| then 0
    else if steps[from].isComplete then 1
    else 1 + FramesShown(steps, from + 1)
  }

  /** When only the last step may be complete, the player shows every
      remaining step. */
  lemma {:induction false} ShowsEveryStep(steps: seq<Step>, from: nat)
    requires from <= |steps|
    requires forall i :: 0 <= i < |steps| - 1 ==> !steps[i].isComplete
    ensures FramesShown(steps, from) == |steps| - from
    decreases |steps| - from
  {
    if from < |steps| && !steps[from].isComplete {
      ShowsEveryStep(steps, from + 1);
    }
  }
}
