/** The page controller (`PathfindingVisualizer` in web/static/js/app.js):
    the grid it edits in place, the mouse state, the animation cursor and
    the guard in front of a search request. Drawing, the DOM and timers are
    not modelled; a timer firing is a call of `Tick`, which may come at any
    time, also after the grid has changed size. Where the page indexes a
    node that does not exist, it throws; the model says what the grid looks
    like at that point. */
module Visualizer {
  import opened Common
  import opened ClientGrid

  const DefaultGridSize: nat := 30
  const DefaultSpeed: int := 5

  /** What happens after a tick: nothing was left to show, the complete step
      was shown, the next tick is due after `delay` milliseconds, or the
      callback threw on a point off the grid and scheduled nothing. */
  datatype Schedule = Stopped | Finished | After(delay: int) | Crashed

  /** The pause between frames: 100 ms at speed 1 down to 10 ms at
      speed 10. */
  function TickDelay(speed: int): (ms: int)
    ensures 1 <= speed <= 10 ==> 10 <= ms <= 100
  {
    110 - speed * 10
  }

  class PathfindingVisualizer {
    var gridSize: nat
    var grid: Board
    var isMouseDown: bool
    var isDrawing: bool
    var animationSteps: seq<Step>
    var currentStep: nat
    var animationSpeed: int

    /** The grid has the size the controls say. */
    ghost predicate Valid()
      reads this
    {
      grid.width == gridSize && grid.height == gridSize && Square(gridSize, grid.nodes)
    }

    constructor ()
      ensures Valid() && gridSize == DefaultGridSize && animationSpeed == DefaultSpeed
      ensures !isMouseDown && !isDrawing && animationSteps == [] && currentStep == 0
      ensures PointsOk(gridSize, grid.nodes) && WellMarked(gridSize, grid.nodes, grid.start, grid.end)
      ensures grid.start != grid.end
    {
      gridSize := DefaultGridSize;
      isMouseDown := false;
      isDrawing := false;
      animationSteps := [];
      currentStep := 0;
      animationSpeed := DefaultSpeed;
      new;
      CreateGrid();
      NewGridMarked(gridSize, grid.nodes);
    }

    /** A fresh grid of `gridSize` rows with the start at (1, 1) and the end
        at (gridSize - 2, gridSize - 2). */
    method CreateGrid()
      modifies this`grid
      ensures Valid()
      ensures grid.start == DefaultStart && grid.end == DefaultEnd(gridSize)
      ensures forall p :: Inside(gridSize, p) ==> At(gridSize, grid.nodes, p) == NewNode(p, grid.start, grid.end)
    {
      var start, end := DefaultStart, DefaultEnd(gridSize);
      var rows: seq<seq<Node>> := [];
      var y := 0;
      while y < gridSize
        invariant 0 <= y <= gridSize && |rows| == y
        invariant forall j :: 0 <= j < y ==> |rows[j]| == gridSize
        invariant forall p: Point :: 0 <= p.x < gridSize && 0 <= p.y < y ==> rows[p.y][p.x] == NewNode(p, start, end)
      {
        var row: seq<Node> := [];
        var x := 0;
        while x < gridSize
          invariant 0 <= x <= gridSize && |row| == x
          invariant forall i :: 0 <= i < x ==> row[i] == NewNode(Point(i, y), start, end)
        {
          row := row + [NewNode(Point(x, y), start, end)];
          x := x + 1;
        }
        rows := rows + [row];
        y := y + 1;
      }
      grid := Board(gridSize, gridSize, start, end, rows);
    }

    /** onGridSizeChange: a new size and a new grid of that size. */
    method OnGridSizeChange(size: nat)
      modifies this`gridSize, this`grid
      ensures gridSize == size && Valid()
      ensures grid.start == DefaultStart && grid.end == DefaultEnd(size)
      ensures forall p :: Inside(size, p) ==> At(size, grid.nodes, p) == NewNode(p, grid.start, grid.end)
    {
      gridSize := size;
      CreateGrid();
    }

    /** resetGrid: clears the painting, then builds a fresh grid. */
    method ResetGrid()
      requires Valid()
      modifies this`grid
      ensures Valid()
      ensures grid.start == DefaultStart && grid.end == DefaultEnd(gridSize)
      ensures forall p :: Inside(gridSize, p) ==> At(gridSize, grid.nodes, p) == NewNode(p, grid.start, grid.end)
    {
      ClearPath();
      CreateGrid();
    }

    /** onSpeedChange. */
    method OnSpeedChange(speed: int)
      modifies this`animationSpeed
      ensures animationSpeed == speed
    {
      animationSpeed := speed;
    }

    /** setStart: moves the start flag to (x, y), clearing any wall there.
        When the old start is off the grid (a grid of size 0 or 1), the
        page throws before changing anything. */
    method SetStart(x: int, y: int)
      requires Valid() && Inside(gridSize, Point(x, y))
      modifies this`grid
      ensures Valid()
      ensures !Inside(gridSize, old(grid.start)) ==> grid == old(grid)
      ensures Inside(gridSize, old(grid.start)) ==>
        grid == old(grid).(start := Point(x, y),
                           nodes := WithStart(gridSize, old(grid.nodes), old(grid.start), Point(x, y)))
    {
      var oldStart := grid.start;
      if !Inside(gridSize, oldStart) {
        return;
      }
      var nodes := Put(gridSize, grid.nodes, oldStart, At(gridSize, grid.nodes, oldStart).(isStart := false));
      var target := Point(x, y);
      nodes := Put(gridSize, nodes, target, At(gridSize, nodes, target).(isStart := true, isWall := false));
      grid := grid.(start := target, nodes := nodes);
    }

    /** setEnd: moves the end flag to (x, y), clearing any wall there.
        When the old end is off the grid (a grid of size 0 or 1), the page
        throws before changing anything. */
    method SetEnd(x: int, y: int)
      requires Valid() && Inside(gridSize, Point(x, y))
      modifies this`grid
      ensures Valid()
      ensures !Inside(gridSize, old(grid.end)) ==> grid == old(grid)
      ensures Inside(gridSize, old(grid.end)) ==>
        grid == old(grid).(end := Point(x, y),
                           nodes := WithEnd(gridSize, old(grid.nodes), old(grid.end), Point(x, y)))
    {
      var oldEnd := grid.end;
      if !Inside(gridSize, oldEnd) {
        return;
      }
      var nodes := Put(gridSize, grid.nodes, oldEnd, At(gridSize, grid.nodes, oldEnd).(isEnd := false));
      var target := Point(x, y);
      nodes := Put(gridSize, nodes, target, At(gridSize, nodes, target).(isEnd := true, isWall := false));
      grid := grid.(end := target, nodes := nodes);
    }

    /** toggleWall: flips the wall at (x, y) unless a marker is there. */
    method ToggleWall(x: int, y: int)
      requires Valid() && Inside(gridSize, Point(x, y))
      modifies this`grid
      ensures Valid()
      ensures grid == old(grid).(nodes := Toggled(gridSize, old(grid.nodes), Point(x, y)))
    {
      var here := Point(x, y);
      var node := At(gridSize, grid.nodes, here);
      if IsMarker(node) {
        return;
      }
      grid := grid.(nodes := Put(gridSize, grid.nodes, here, node.(isWall := !node.isWall)));
    }

    /** clearVisualization: clears the transient flags of every node. */
    method ClearVisualization()
      requires Valid()
      modifies this`grid
      ensures Valid()
      ensures grid == old(grid).(nodes := ClearedBoard(gridSize, old(grid.nodes)))
    {
      ghost var before := grid.nodes;
      var y := 0;
      while y < gridSize
        invariant 0 <= y <= gridSize && Valid() && grid == old(grid).(nodes := grid.nodes)
        invariant forall p :: Inside(gridSize, p) ==>
          At(gridSize, grid.nodes, p) == if p.y < y then Unvisited(At(gridSize, before, p)) else At(gridSize, before, p)
      {
        var x := 0;
        while x < gridSize
          invariant 0 <= x <= gridSize && Valid() && grid == old(grid).(nodes := grid.nodes)
          invariant forall p :: Inside(gridSize, p) ==>
            At(gridSize, grid.nodes, p) ==
              if p.y < y || (p.y == y && p.x < x) then Unvisited(At(gridSize, before, p)) else At(gridSize, before, p)
        {
          var here := Point(x, y);
          grid := grid.(nodes := Put(gridSize, grid.nodes, here, Unvisited(At(gridSize, grid.nodes, here))));
          x := x + 1;
        }
        y := y + 1;
      }
      SameCells(gridSize, grid.nodes, ClearedBoard(gridSize, before));
    }

    /** clearPath: clears the painting (cancelling the pending frame is not
        modelled). */
    method ClearPath()
      requires Valid()
      modifies this`grid
      ensures Valid()
      ensures grid == old(grid).(nodes := ClearedBoard(gridSize, old(grid.nodes)))
    {
      ClearVisualization();
    }

    /** clearWalls: removes every wall not under a marker. */
    method ClearWalls()
      requires Valid()
      modifies this`grid
      ensures Valid()
      ensures grid == old(grid).(nodes := WallsCleared(gridSize, old(grid.nodes)))
    {
      ghost var before := grid.nodes;
      var y := 0;
      while y < gridSize
        invariant 0 <= y <= gridSize && Valid() && grid == old(grid).(nodes := grid.nodes)
        invariant forall p :: Inside(gridSize, p) ==>
          At(gridSize, grid.nodes, p) == if p.y < y then Unwalled(At(gridSize, before, p)) else At(gridSize, before, p)
      {
        var x := 0;
        while x < gridSize
          invariant 0 <= x <= gridSize && Valid() && grid == old(grid).(nodes := grid.nodes)
          invariant forall p :: Inside(gridSize, p) ==>
            At(gridSize, grid.nodes, p) ==
              if p.y < y || (p.y == y && p.x < x) then Unwalled(At(gridSize, before, p)) else At(gridSize, before, p)
        {
          var here := Point(x, y);
          var node := At(gridSize, grid.nodes, here);
          if !node.isStart && !node.isEnd {
            grid := grid.(nodes := Put(gridSize, grid.nodes, here, node.(isWall := false)));
          }
          x := x + 1;
        }
        y := y + 1;
      }
      SameCells(gridSize, grid.nodes, WallsCleared(gridSize, before));
    }

    /** generateMaze: clears the walls, then walls each non-marker cell whose
        draw (`draws`, one per cell in row-major order) is under 0.3. */
    method GenerateMaze(draws: seq<real>)
      requires Valid()
      modifies this`grid
      ensures Valid()
      ensures grid == old(grid).(nodes := Maze(gridSize, old(grid.nodes), draws))
    {
      ClearWalls();
      DrawWalls(draws);
    }

    /** The loop of generateMaze after clearWalls. */
    method DrawWalls(draws: seq<real>)
      requires Valid()
      modifies this`grid
      ensures Valid()
      ensures grid == old(grid).(nodes := WallsDrawn(gridSize, old(grid.nodes), draws))
    {
      ghost var before := grid.nodes;
      var y := 0;
      while y < gridSize
        invariant 0 <= y <= gridSize && Valid() && grid == old(grid).(nodes := grid.nodes)
        invariant forall p :: Inside(gridSize, p) ==>
          At(gridSize, grid.nodes, p) ==
            if p.y < y then MazeNode(At(gridSize, before, p), Draw(draws, p.y * gridSize + p.x))
            else At(gridSize, before, p)
      {
        var x := 0;
        while x < gridSize
          invariant 0 <= x <= gridSize && Valid() && grid == old(grid).(nodes := grid.nodes)
          invariant forall p :: Inside(gridSize, p) ==>
            At(gridSize, grid.nodes, p) ==
              if p.y < y || (p.y == y && p.x < x) then MazeNode(At(gridSize, before, p), Draw(draws, p.y * gridSize + p.x))
              else At(gridSize, before, p)
        {
          var here := Point(x, y);
          var node := At(gridSize, grid.nodes, here);
          if !node.isStart && !node.isEnd && Draw(draws, y * gridSize + x) < WallChance {
            grid := grid.(nodes := Put(gridSize, grid.nodes, here, node.(isWall := true)));
          }
          x := x + 1;
        }
        y := y + 1;
      }
      SameCells(gridSize, grid.nodes, WallsDrawn(gridSize, before, draws));
    }

    /** One `forEach` of the page: paints the node of each listed point, and
        throws (`ok` false) at the first point off the grid. */
    method PaintPoints(points: seq<Point>, paint: Paint) returns (ok: bool)
      requires Valid()
      modifies this`grid
      ensures Valid()
      ensures grid == old(grid).(nodes := PaintReach(gridSize, old(grid.nodes), points, paint).rows)
      ensures ok == PaintReach(gridSize, old(grid.nodes), points, paint).ok
    {
      ghost var before := grid.nodes;
      var i := 0;
      while i < |points|
        invariant 0 <= i <= |points| && Valid() && grid == old(grid).(nodes := grid.nodes)
        invariant forall j :: 0 <= j < i ==> Inside(gridSize, points[j])
        invariant forall p :: Inside(gridSize, p) ==>
          At(gridSize, grid.nodes, p) == if p in points[..i] then Painted(At(gridSize, before, p), paint) else At(gridSize, before, p)
      {
        var here := points[i];
        if !Inside(gridSize, here) {
          assert Reach(gridSize, points) == i;
          SameCells(gridSize, grid.nodes, PaintAll(gridSize, before, points[..i], paint));
          return false;
        }
        grid := grid.(nodes := Put(gridSize, grid.nodes, here, Painted(At(gridSize, grid.nodes, here), paint)));
        assert points[..i + 1] == points[..i] + [here];
        i := i + 1;
      }
      assert points[..i] == points && Reach(gridSize, points) == i;
      SameCells(gridSize, grid.nodes, PaintAll(gridSize, before, points, paint));
      return true;
    }

    /** displayResult: paints the path, then the explored cells off the
        path; a point off the grid throws. */
    method DisplayResult(result: Response) returns (ok: bool)
      requires Valid()
      modifies this`grid
      ensures Valid()
      ensures grid == old(grid).(nodes := TryDisplay(gridSize, old(grid.nodes), result).rows)
      ensures ok <==> ResultInside(gridSize, result)
      ensures ok ==> grid.nodes == Displayed(gridSize, old(grid.nodes), result)
    {
      TryDisplayShows(gridSize, grid.nodes, result);
      ok := PaintPoints(result.path, OnPath);
      if !ok {
        return;
      }
      ok := PaintPoints(result.exploredNodes, Reached);
    }

    /** One run of the `animate` callback: shows the frame under the cursor
        and moves the cursor on, or does nothing once the cursor is past the
        last step. A point of the frame off the grid (the grid shrank after
        the reply came) throws half way: the grid stays partly painted, the
        cursor stays, and no further tick is scheduled. */
    method Tick() returns (next: Schedule)
      requires Valid()
      modifies this`grid, this`currentStep
      ensures Valid()
      ensures old(currentStep) >= |animationSteps| ==>
        next == Stopped && grid == old(grid) && currentStep == old(currentStep)
      ensures old(currentStep) < |animationSteps| ==>
        var step := animationSteps[old(currentStep)];
        && (!StepInside(gridSize, step) ==> next == Crashed && currentStep == old(currentStep))
        && (StepInside(gridSize, step) ==>
              && currentStep == old(currentStep) + 1
              && next == if step.isComplete then Finished else After(TickDelay(animationSpeed)))
      ensures old(currentStep) < |animationSteps| && !StepInside(gridSize, animationSteps[old(currentStep)]) ==>
        grid == old(grid).(nodes := TryFrame(gridSize, old(grid.nodes), animationSteps[old(currentStep)]).rows)
      ensures old(currentStep) < |animationSteps| && StepInside(gridSize, animationSteps[old(currentStep)]) ==>
        grid == old(grid).(nodes := Frame(gridSize, old(grid.nodes), animationSteps[old(currentStep)]))
    {
      if currentStep >= |animationSteps| {
        return Stopped;
      }
      var step := animationSteps[currentStep];
      TryFrameShows(gridSize, grid.nodes, step);
      ClearVisualization();
      var ok := PaintPoints(step.closedSet, Closed);
      if !ok {
        return Crashed;
      }
      ok := PaintPoints(step.openSet, Open);
      if !ok {
        return Crashed;
      }
      if step.isComplete && step.path.Some? {
        ok := PaintPoints(step.path.value, OnPath);
        if !ok {
          return Crashed;
        }
      }
      currentStep := currentStep + 1;
      if step.isComplete {
        return Finished;
      }
      return After(TickDelay(animationSpeed));
    }

    /** The timer chain of animatePathfinding: one tick, then the chain
        again when that tick schedules another. With every remaining frame
        on the grid, it shows `FramesShown` frames, stops on a complete one
        exactly when the last frame it showed was complete, and leaves that
        frame on the grid; showing none, it stops at once and changes
        nothing. */
    method Play() returns (last: Schedule)
      requires Valid()
      modifies this`grid, this`currentStep
      decreases |animationSteps| - currentStep
      ensures Valid() && !last.After?
      ensures (forall i :: old(currentStep) <= i < |animationSteps| ==> StepInside(gridSize, animationSteps[i])) ==>
        && !last.Crashed?
        && currentStep == old(currentStep) + FramesShown(animationSteps, old(currentStep))
        && (currentStep > old(currentStep) ==> (last.Finished? <==> animationSteps[currentStep - 1].isComplete))
        && (currentStep > old(currentStep) ==>
              grid == old(grid).(nodes := Frame(gridSize, old(grid.nodes), animationSteps[currentStep - 1])))
        && (currentStep == old(currentStep) ==> last.Stopped? && grid == old(grid))
    {
      ghost var from := currentStep;
      ghost var start := grid;
      ghost var inside := forall i :: from <= i < |animationSteps| ==> StepInside(gridSize, animationSteps[i]);
      last := Tick();
      if inside && from < |animationSteps| {
        assert StepInside(gridSize, animationSteps[from]);
      }
      if last.After? {
        last := Play();
        if inside && currentStep > from + 1 {
          FrameForgetsHistory(gridSize, start.nodes, animationSteps[from], animationSteps[currentStep - 1]);
        }
      }
    }

    /** The guard at the top of findPath: after clearing the painting, a
        request carrying the grid is built only when the rows of both
        markers exist and start and end differ. */
    method FindPath() returns (request: Option<Board>)
      requires Valid()
      modifies this`grid
      ensures Valid()
      ensures grid == old(grid).(nodes := ClearedBoard(gridSize, old(grid.nodes)))
      ensures request.None? <==>
        !(0 <= grid.start.y < gridSize && 0 <= grid.end.y < gridSize) || grid.start == grid.end
      ensures request.Some? ==> request.value == grid
    {
      ClearPath();
      // the debug log reads the rows of both markers, and throws when one is missing
      if !(0 <= grid.start.y < gridSize && 0 <= grid.end.y < gridSize) {
        return None;
      }
      if grid.start == grid.end {
        return None;
      }
      return Some(grid);
    }

    /** What findPath does with the server's reply: a found path is animated
        when it comes with frames (the first frame is shown at once) and
        painted directly otherwise; a failed search paints nothing. A point
        off the grid (the grid shrank while the request was out) throws into
        findPath's error handler. */
    method ReceiveResult(result: Response) returns (next: Schedule)
      requires Valid()
      modifies this`grid, this`animationSteps, this`currentStep
      ensures Valid()
      ensures !result.success ==>
        next == Stopped && grid == old(grid) && animationSteps == old(animationSteps) && currentStep == old(currentStep)
      ensures result.success && result.steps == [] ==>
        && grid == old(grid).(nodes := TryDisplay(gridSize, old(grid.nodes), result).rows)
        && animationSteps == old(animationSteps) && currentStep == old(currentStep)
        && next == (if ResultInside(gridSize, result) then Stopped else Crashed)
        && (ResultInside(gridSize, result) ==> grid.nodes == Displayed(gridSize, old(grid.nodes), result))
      ensures result.success && result.steps != [] ==>
        var first := result.steps[0];
        && animationSteps == result.steps
        && (!StepInside(gridSize, first) ==>
              && next == Crashed && currentStep == 0
              && grid == old(grid).(nodes := TryFrame(gridSize, old(grid.nodes), first).rows))
        && (StepInside(gridSize, first) ==>
              && currentStep == 1 && grid == old(grid).(nodes := Frame(gridSize, old(grid.nodes), first))
              && next == if first.isComplete then Finished else After(TickDelay(animationSpeed)))
    {
      if !result.success {
        return Stopped;
      }
      if |result.steps| > 0 {
        animationSteps := result.steps;
        currentStep := 0;
        next := Tick();
      } else {
        var ok := DisplayResult(result);
        next := if ok then Stopped else Crashed;
      }
    }

    /** onMouseDown on cell (x, y): a right click moves the start, a
        ctrl-click the end, any other click toggles a wall and starts
        drawing. The button is down even when the cell is off the grid. */
    method OnMouseDown(x: int, y: int, button: int, ctrlKey: bool)
      requires Valid()
      modifies this`isMouseDown, this`isDrawing, this`grid
      ensures Valid() && isMouseDown
      ensures !Inside(gridSize, Point(x, y)) ==> grid == old(grid) && isDrawing == old(isDrawing)
      ensures Inside(gridSize, Point(x, y)) && button == 2 ==>
        && isDrawing == old(isDrawing)
        && (!Inside(gridSize, old(grid.start)) ==> grid == old(grid))
        && (Inside(gridSize, old(grid.start)) ==>
              grid == old(grid).(start := Point(x, y),
                                 nodes := WithStart(gridSize, old(grid.nodes), old(grid.start), Point(x, y))))
      ensures Inside(gridSize, Point(x, y)) && button != 2 && ctrlKey ==>
        && isDrawing == old(isDrawing)
        && (!Inside(gridSize, old(grid.end)) ==> grid == old(grid))
        && (Inside(gridSize, old(grid.end)) ==>
              grid == old(grid).(end := Point(x, y),
                                 nodes := WithEnd(gridSize, old(grid.nodes), old(grid.end), Point(x, y))))
      ensures Inside(gridSize, Point(x, y)) && button != 2 && !ctrlKey ==>
        isDrawing && grid == old(grid).(nodes := Toggled(gridSize, old(grid.nodes), Point(x, y)))
    {
      isMouseDown := true;
      if !Inside(gridSize, Point(x, y)) {
        return;
      }
      if button == 2 {
        SetStart(x, y);
      } else if ctrlKey {
        SetEnd(x, y);
      } else {
        ToggleWall(x, y);
        isDrawing := true;
      }
    }

    /** onMouseMove over cell (x, y): while drawing, toggles the cell, on
        every event, even when it is the cell toggled last. */
    method OnMouseMove(x: int, y: int)
      requires Valid()
      modifies this`grid
      ensures Valid()
      ensures isMouseDown && isDrawing && Inside(gridSize, Point(x, y)) ==>
        grid == old(grid).(nodes := Toggled(gridSize, old(grid.nodes), Point(x, y)))
      ensures !(isMouseDown && isDrawing && Inside(gridSize, Point(x, y))) ==> grid == old(grid)
    {
      if !isMouseDown || !isDrawing {
        return;
      }
      if !Inside(gridSize, Point(x, y)) {
        return;
      }
      ToggleWall(x, y);
    }

    /** onMouseUp: the button is up and drawing stops. */
    method OnMouseUp()
      modifies this`isMouseDown, this`isDrawing
      ensures !isMouseDown && !isDrawing
    {
      isMouseDown := false;
      isDrawing := false;
    }
  }
}
