/** The two API handlers of the server (cmd/main.go): the validation chain
    in front of the A* search, and the grid factory behind
    `GET /api/grid/:width/:height`. */
module Handlers {
  import opened Common
  import opened GridTypes
  import opened Search
  import opened Numerals

  const StatusOK: int := 200
  const StatusBadRequest: int := 400

  /** The bounds `handleCreateGrid` accepts for each dimension. */
  const MinGridSize: int := 5
  const MaxGridSize: int := 100

  /** Why a pathfinding request is refused, in the order the checks run. */
  datatype RequestError =
    | BadDimensions
    | BadStart
    | BadEnd
    | SameStartEnd
    | RowCountMismatch
    | RowWidthMismatch(row: nat)

  /** The `error` text of each refusal. The row of a width mismatch is
      written as a decimal numeral. */
  function ErrorMessage(e: RequestError): string
  {
    match e
    case BadDimensions => "Invalid grid dimensions"
    case BadStart => "Invalid start point"
    case BadEnd => "Invalid end point"
    case SameStartEnd => "Start and end points cannot be the same"
    case RowCountMismatch => "Grid nodes array height mismatch"
    case RowWidthMismatch(i) => RowMismatchPrefix + Decimal(i)
  }

  const RowMismatchPrefix: string := "Grid nodes array width mismatch at row "

  /** The width-mismatch text as the handler builds it, with the row index
      converted by `string(rune(i))`. */
  function RowMismatchAsWritten(i: nat): string
  {
    RowMismatchPrefix + RuneString(i)
  }

  /** Different refusals read differently, so a client can tell which check
      failed and which row was wrong. */
  lemma {:induction false} ErrorMessagesDistinct(e1: RequestError, e2: RequestError)
    requires e1 != e2
    ensures ErrorMessage(e1) != ErrorMessage(e2)
  {
    var m1, m2 := ErrorMessage(e1), ErrorMessage(e2);
    var p := |RowMismatchPrefix|;
    if e1.RowWidthMismatch? && e2.RowWidthMismatch? {
      assert m1[p..] == Decimal(e1.row) && m2[p..] == Decimal(e2.row);
    } else {
      MessageLength(e1);
      MessageLength(e2);
    }
  }

  /** The lengths of the texts, which already tell the refusals apart. */
  lemma MessageLength(e: RequestError)
    ensures |ErrorMessage(e)| == match e
      case BadDimensions => 23
      case BadStart => 19
      case BadEnd => 17
      case SameStartEnd => 39
      case RowCountMismatch => 32
      case RowWidthMismatch(_) => |RowMismatchPrefix| + |Decimal(e.row)|
    ensures |RowMismatchPrefix| == 39
  {
  }

  /** As written, the text never carries the row's numeral, and two rows
      (0xD800 and 0xD801, neither a Unicode scalar value) give the same text. */
  lemma RowMismatchAsWrittenIsWrong(i: nat)
    ensures RowMismatchAsWritten(i) != ErrorMessage(RowWidthMismatch(i))
    ensures RowMismatchAsWritten(0xD800) == RowMismatchAsWritten(0xD801)
  {
    RuneStringIsNotDecimal(i);
    var p := |RowMismatchPrefix|;
    assert RowMismatchAsWritten(i)[p..] == RuneString(i);
    assert ErrorMessage(RowWidthMismatch(i))[p..] == Decimal(i);
  }

  /** The first row, from `from` on, whose length is not `width`. */
  function FirstBadRow(rows: seq<seq<Node>>, width: int, from: nat): (r: Option<nat>)
    requires from <= |rows|
    ensures r.Some? ==> from <= r.value < |rows| && |rows[r.value]| != width
    ensures r.Some? ==> forall k :: from <= k < r.value ==> |rows[k]| == width
    ensures r.None? ==> forall k :: from <= k < |rows| ==> |rows[k]| == width
    decreases |rows| - from
  {
    if from == |rows| then None
    else if |rows[from]| != width then Some(from)
    else FirstBadRow(rows, width, from + 1)
  }

  /** The checks `handlePathfinding` makes before searching, in order; the
      first that fails decides the refusal. */
  function Check(g: Grid, rows: seq<seq<Node>>): Option<RequestError>
  {
    if g.width <= 0 || g.height <= 0 then Some(BadDimensions)
    else if !g.IsValidPoint(g.start) then Some(BadStart)
    else if !g.IsValidPoint(g.end) then Some(BadEnd)
    else if g.start == g.end then Some(SameStartEnd)
    else if |rows| != g.height then Some(RowCountMismatch)
    else match FirstBadRow(rows, g.width, 0)
      case Some(i) => Some(RowWidthMismatch(i))
      case None => None
  }

  /** A request passes the checks exactly when its grid is non-empty, has
      the declared shape, and has distinct start and end inside it. */
  lemma CheckPassesWellFormed(g: Grid, rows: seq<seq<Node>>)
    ensures Check(g, rows) == None <==>
      && g.width > 0 && g.height > 0
      && g.IsValidPoint(g.start) && g.IsValidPoint(g.end) && g.start != g.end
      && g.Fits(rows)
  {
  }

  /** The validation chain of `handlePathfinding`. */
  method Validate(g: Grid) returns (err: Option<RequestError>)
    ensures err == Check(g, g.nodes)
  {
    if g.width <= 0 || g.height <= 0 {
      return Some(BadDimensions);
    }
    if !g.IsValidPoint(g.start) {
      return Some(BadStart);
    }
    if !g.IsValidPoint(g.end) {
      return Some(BadEnd);
    }
    if g.start == g.end {
      return Some(SameStartEnd);
    }
    if |g.nodes| != g.height {
      return Some(RowCountMismatch);
    }
    var i := 0;
    while i < |g.nodes|
      invariant 0 <= i <= |g.nodes|
      invariant FirstBadRow(g.nodes, g.width, 0) == FirstBadRow(g.nodes, g.width, i)
    {
      if |g.nodes[i]| != g.width {
        return Some(RowWidthMismatch(i));
      }
      i := i + 1;
    }
    return None;
  }

  /** What `handlePathfinding` sends back with its status code. */
  datatype PathAnswer = Refused(error: string) | Solved(result: Response)

  /** `IsWalk` and `Enclosed` only look at walls, so the report holds of any
      grid with the same walls. */
  lemma ReportedOnSameWalls(g: Grid, a: seq<seq<Node>>, b: seq<seq<Node>>, animate: bool, resp: Response)
    requires g.Fits(a) && g.Fits(b)
    requires forall p :: g.IsValidPoint(p) ==> g.Cell(a, p).isWall == g.Cell(b, p).isWall
    requires Reported(g, a, animate, resp)
    ensures Reported(g, b, animate, resp)
  {
    assert forall q :: g.Passable(a, q) <==> g.Passable(b, q);
    assert PathReported(g, a, resp);
    if resp.success {
      var path := resp.path;
      assert IsWalk(g, a, path);
      forall i, j | 0 <= i < j < |path| && j == i + 1
        ensures Adjacent(path[i], path[j]) && g.Passable(b, path[j])
      {
        assert Adjacent(path[i], path[j]) && g.Passable(a, path[j]);
      }
      assert IsWalk(g, b, path);
    } else {
      assert Enclosed(g, b, resp.exploredNodes);
    }
  }

  /** Validates the request, marks its start and end nodes, and runs the
      search on its grid. The heuristic name only picks a floating-point
      estimate and is not modelled. */
  method HandlePathfinding(req: Grid, animate: bool, pops: seq<nat>) returns (status: int, answer: PathAnswer)
    modifies req
    ensures Check(req, old(req.nodes)).Some? ==>
      && status == StatusBadRequest
      && answer == Refused(ErrorMessage(Check(req, old(req.nodes)).value))
      && req.nodes == old(req.nodes)
    ensures Check(req, old(req.nodes)).None? ==> req.Fits(old(req.nodes)) && req.WellFormed()
    ensures Check(req, old(req.nodes)).None? ==>
      && status == StatusOK && answer.Solved?
      && Reported(req, old(req.nodes), animate, answer.result)
      && req.Cell(req.nodes, req.start).isStart && req.Cell(req.nodes, req.end).isEnd
      && forall p :: req.IsValidPoint(p) ==>
           var before, after := req.Cell(old(req.nodes), p), req.Cell(req.nodes, p);
           && after.isWall == before.isWall && after.point == before.point
           && (p != req.start ==> after.isStart == before.isStart)
           && (p != req.end ==> after.isEnd == before.isEnd)
  {
    var err := Validate(req);
    if err.Some? {
      return StatusBadRequest, Refused(ErrorMessage(err.value));
    }
    CheckPassesWellFormed(req, req.nodes);
    ghost var received := req.nodes;
    var startNode := req.nodes[req.start.y][req.start.x];
    req.nodes := req.Put(req.nodes, req.start, startNode.(isStart := true));
    var endNode := req.nodes[req.end.y][req.end.x];
    req.nodes := req.Put(req.nodes, req.end, endNode.(isEnd := true));
    ghost var marked := req.nodes;
    var result := AStar(req, animate, pops);
    ReportedOnSameWalls(req, marked, received, animate, result);
    return StatusOK, Solved(result);
  }

  /** What `handleCreateGrid` sends back with its status code. */
  datatype GridAnswer = GridRefused(error: string) | Created(grid: Grid)

  /** Whether a path parameter reads as a grid dimension the server accepts. */
  predicate AcceptedSize(param: string)
  {
    var n := Atoi(param);
    n.Some? && MinGridSize <= n.value <= MaxGridSize
  }

  /** Parses both dimensions (width first) and answers with a fresh grid. */
  method HandleCreateGrid(widthParam: string, heightParam: string) returns (status: int, answer: GridAnswer)
    ensures !AcceptedSize(widthParam) ==>
      status == StatusBadRequest && answer == GridRefused("Invalid width. Must be between 5 and 100")
    ensures AcceptedSize(widthParam) && !AcceptedSize(heightParam) ==>
      status == StatusBadRequest && answer == GridRefused("Invalid height. Must be between 5 and 100")
    ensures AcceptedSize(widthParam) && AcceptedSize(heightParam) ==>
      && status == StatusOK && answer.Created? && fresh(answer.grid)
      && answer.grid.width == Atoi(widthParam).value && answer.grid.height == Atoi(heightParam).value
      && answer.grid.WellFormed()
      && answer.grid.start == Point(0, 0)
      && answer.grid.end == Point(answer.grid.width - 1, answer.grid.height - 1)
      && forall p :: answer.grid.IsValidPoint(p) ==> answer.grid.Cell(answer.grid.nodes, p) == Blank(p)
  {
    var width := Atoi(widthParam);
    if width.None? || width.value < MinGridSize || width.value > MaxGridSize {
      return StatusBadRequest, GridRefused("Invalid width. Must be between 5 and 100");
    }
    var height := Atoi(heightParam);
    if height.None? || height.value < MinGridSize || height.value > MaxGridSize {
      return StatusBadRequest, GridRefused("Invalid height. Must be between 5 and 100");
    }
    var grid := CreateGrid(width.value, height.value);
    return StatusOK, Created(grid);
  }
}
