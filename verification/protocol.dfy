/** What the browser and the server promise each other: a request the page's
    guard lets through passes the server's checks, and the player shows
    every frame of an animated reply. */
module Protocol {
  import opened Common
  import GridTypes
  import Search
  import Handlers
  import ClientGrid
  import Visualizer

  /** A page node as the server decodes it: the flags and the position are
      carried over; cost and parent are absent from the JSON. */
  function Decoded(v: ClientGrid.Node): GridTypes.Node
  {
    GridTypes.Node(v.point, 0, None, v.isWall, v.isStart, v.isEnd, v.isPath, v.visited, v.inOpenSet)
  }

  function DecodedRows(rows: seq<seq<ClientGrid.Node>>): (r: seq<seq<GridTypes.Node>>)
    ensures |r| == |rows|
    ensures forall y :: 0 <= y < |rows| ==> |r[y]| == |rows[y]|
    ensures forall y, x :: 0 <= y < |rows| && 0 <= x < |rows[y]| ==> r[y][x] == Decoded(rows[y][x])
  {
    seq(|rows|, y requires 0 <= y < |rows| =>
      seq(|rows[y]|, x requires 0 <= x < |rows[y]| => Decoded(rows[y][x])))
  }

  /** A grid the page keeps, with well placed markers that the findPath
      guard lets through (start and end differ), passes every check of the
      pathfinding handler, whose grid then carries the page's walls and
      markers. */
  lemma GuardedRequestAccepted(board: ClientGrid.Board, n: int, g: GridTypes.Grid)
    requires ClientGrid.Square(n, board.nodes) && board.width == n && board.height == n
    requires ClientGrid.WellMarked(n, board.nodes, board.start, board.end) && board.start != board.end
    requires g.width == board.width && g.height == board.height && g.start == board.start && g.end == board.end
    ensures Handlers.Check(g, DecodedRows(board.nodes)) == None
    ensures g.Fits(DecodedRows(board.nodes))
    ensures forall p :: g.IsValidPoint(p) ==>
      var u, v := g.Cell(DecodedRows(board.nodes), p), ClientGrid.At(n, board.nodes, p);
      u.isWall == v.isWall && (u.isStart <==> p == g.start) && (u.isEnd <==> p == g.end)
  {
    Handlers.CheckPassesWellFormed(g, DecodedRows(board.nodes));
  }

  /** An animated reply whose frames all fit the page's grid is played to
      its end: only its last frame can be complete, so the page receives
      it, shows the first frame at once, and the timer shows every other
      frame before it stops on a complete one. The grid is left showing
      the last frame: the found path, the explored cells and the final
      open set, with the markers unpainted. */
  method PlayerShowsEveryFrame(v: Visualizer.PathfindingVisualizer, resp: Response) returns (last: Visualizer.Schedule)
    requires v.Valid() && Search.FramesReported(true, resp) && resp.success && resp.steps != []
    requires forall i :: 0 <= i < |resp.steps| ==> ClientGrid.StepInside(v.gridSize, resp.steps[i])
    modifies v`grid, v`animationSteps, v`currentStep
    ensures v.Valid() && v.animationSteps == resp.steps
    ensures v.currentStep == |resp.steps| && last == Visualizer.Finished
    ensures v.grid == old(v.grid).(nodes := ClientGrid.Frame(v.gridSize, old(v.grid.nodes), resp.steps[|resp.steps| - 1]))
    ensures forall p :: ClientGrid.Inside(v.gridSize, p) ==>
      var u := ClientGrid.At(v.gridSize, v.grid.nodes, p);
      && (ClientGrid.IsMarker(u) ==> !u.visited && !u.inOpenSet && !u.isPath)
      && (!ClientGrid.IsMarker(u) ==> (u.isPath <==> p in resp.path) && (u.visited <==> p in resp.exploredNodes))
  {
    ClientGrid.ShowsEveryStep(resp.steps, 1);
    ghost var before := v.grid.nodes;
    var first := resp.steps[0];
    last := v.ReceiveResult(resp);
    if last.After? {
      last := v.Play();
      ClientGrid.FrameForgetsHistory(v.gridSize, before, first, resp.steps[|resp.steps| - 1]);
    }
    ClientGrid.FrameShows(v.gridSize, before, resp.steps[|resp.steps| - 1]);
  }
}
