/** Values shared by the browser client and the Go solver: the JSON wire format. */
module Common {

  datatype Option<T> = None | Some(value: T)

  /** A cell coordinate: `x` is the column, `y` the row, both 0-based. */
  datatype Point = Point(x: int, y: int)

  /** One frame of solver progress. `path` is absent on every frame but the
      final one of a successful search (the server omits an empty path). */
  datatype Step = Step(currentNode: Point, openSet: seq<Point>, closedSet: seq<Point>,
                       path: Option<seq<Point>>, isComplete: bool)

  /** What the solver answers. `pathLength` is the Euclidean length of the
      path; a path of unit moves measures one less than its point count. */
  datatype Response = Response(success: bool, path: seq<Point>, exploredNodes: seq<Point>,
                               pathLength: int, nodesExplored: int, steps: seq<Step>)

  /** `q` is one move away from `p` along exactly one axis. */
  predicate Adjacent(p: Point, q: Point)
  {
    (p.x == q.x && (q.y == p.y + 1 || q.y == p.y - 1)) ||
    (p.y == q.y && (q.x == p.x + 1 || q.x == p.x - 1))
  }
}
