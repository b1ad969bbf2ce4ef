/** The solver's grid (internal/pathfinding/types.go): nodes, bounds,
    neighbourhood and the reset of search state. */
module GridTypes {
  import opened Common

  /** A solver cell. `g` is the cost from the start along the best route known
      so far and `parent` the cell that route arrives from (the Go pointer is
      identified with the point of the node it points to). The floating-point
      H and F scores are not modelled. */
  datatype Node = Node(point: Point, g: int, parent: Option<Point>,
                       isWall: bool, isStart: bool, isEnd: bool,
                       isPath: bool, visited: bool, inOpenSet: bool)

  /** A node as CreateGrid makes it: only its point is set. */
  function Blank(p: Point): (n: Node)
    ensures n.point == p && n.g == 0 && n.parent == None
    ensures !n.isWall && !n.isStart && !n.isEnd && !n.isPath && !n.visited && !n.inOpenSet
  {
    Node(p, 0, None, false, false, false, false, false, false)
  }

  /** The node with its search state cleared, as ResetGrid leaves it. */
  function Cleared(n: Node): (r: Node)
    ensures r.g == 0 && r.parent == None && !r.isPath && !r.visited && !r.inOpenSet
    ensures r.point == n.point && r.isWall == n.isWall && r.isStart == n.isStart && r.isEnd == n.isEnd
  {
    n.(g := 0, parent := None, isPath := false, visited := false, inOpenSet := false)
  }

  /** The four moves GetNeighbors tries, in its order: down, right, up, left. */
  const Directions: seq<Point> := [Point(0, 1), Point(1, 0), Point(0, -1), Point(-1, 0)]

  /** The cells one move away from `p`, in the order of `Directions`. */
  function Candidates(p: Point): (c: seq<Point>)
    ensures |c| == 4
    ensures forall i :: 0 <= i < 4 ==> c[i] == Point(p.x + Directions[i].x, p.y + Directions[i].y)
  {
    [Point(p.x, p.y + 1), Point(p.x + 1, p.y), Point(p.x, p.y - 1), Point(p.x - 1, p.y)]
  }

  /** The candidates are exactly the adjacent cells. */
  lemma CandidatesAreAdjacent(p: Point, q: Point)
    ensures q in Candidates(p) <==> Adjacent(p, q)
  {
    var c := Candidates(p);
    if Adjacent(p, q) {
      if q.y == p.y + 1 { assert q == c[0]; }
      else if q.x == p.x + 1 { assert q == c[1]; }
      else if q.y == p.y - 1 { assert q == c[2]; }
      else { assert q == c[3]; }
    }
  }

  /** The rank of the move from `p` to the adjacent `q` in `Directions`. */
  function Direction(p: Point, q: Point): (d: nat)
    ensures d < 4
    ensures forall i :: 0 <= i < 4 && q == Candidates(p)[i] ==> d == i
  {
    if q == Point(p.x, p.y + 1) then 0
    else if q == Point(p.x + 1, p.y) then 1
    else if q == Point(p.x, p.y - 1) then 2
    else 3
  }

  /** Each point of `s` comes later in `Directions` around `p` than the one
      before it. */
  predicate InDirectionOrder(p: Point, s: seq<Point>)
  {
    |s| < 2 || (InDirectionOrder(p, s[..|s| - 1]) && Direction(p, s[|s| - 2]) < Direction(p, s[|s| - 1]))
  }

  /** Direction order ranks any earlier point below any later one, so the
      points are distinct. */
  lemma {:induction false} InDirectionOrderRanks(p: Point, s: seq<Point>, a: nat, b: nat)
    requires InDirectionOrder(p, s) && a < b < |s|
    ensures Direction(p, s[a]) < Direction(p, s[b])
    decreases |s|
  {
    var init := s[..|s| - 1];
    if b < |s| - 1 {
      InDirectionOrderRanks(p, init, a, b);
      assert init[a] == s[a] && init[b] == s[b];
    } else if a < |s| - 2 {
      InDirectionOrderRanks(p, init, a, |s| - 2);
      assert init[a] == s[a] && init[|s| - 2] == s[|s| - 2];
    }
  }

  class Grid {
    const width: int
    const height: int
    const start: Point
    const end: Point
    var nodes: seq<seq<Node>>

    constructor (width: int, height: int, nodes: seq<seq<Node>>, start: Point, end: Point)
      ensures this.width == width && this.height == height && this.nodes == nodes
      ensures this.start == start && this.end == end
    {
      this.width := width;
      this.height := height;
      this.nodes := nodes;
      this.start := start;
      this.end := end;
    }

    /** Whether `p` lies inside the declared width and height. */
    predicate IsValidPoint(p: Point)
    {
      p.x >= 0 && p.x < width && p.y >= 0 && p.y < height
    }

    /** `rows` holds `height` rows of `width` nodes each. */
    ghost predicate Fits(rows: seq<seq<Node>>)
    {
      |rows| == height && forall y :: 0 <= y < |rows| ==> |rows[y]| == width
    }

    ghost predicate WellFormed()
      reads this
    {
      Fits(nodes)
    }

    /** On rows of the declared shape, the valid points are exactly the
        positions that index a node. */
    lemma ValidPointIndexesRows(rows: seq<seq<Node>>, p: Point)
      requires Fits(rows)
      ensures IsValidPoint(p) <==> 0 <= p.y < |rows| && 0 <= p.x < |rows[p.y]|
    {
    }

    /** The node at `p`. */
    function Cell(rows: seq<seq<Node>>, p: Point): Node
      requires Fits(rows) && IsValidPoint(p)
    {
      rows[p.y][p.x]
    }

    /** `rows` with the node at `p` replaced by `n`. */
    function Put(rows: seq<seq<Node>>, p: Point, n: Node): (r: seq<seq<Node>>)
      requires Fits(rows) && IsValidPoint(p)
      ensures Fits(r) && Cell(r, p) == n
      ensures forall q :: IsValidPoint(q) && q != p ==> Cell(r, q) == Cell(rows, q)
    {
      rows[p.y := rows[p.y][p.x := n]]
    }

    /** A cell a search may step onto: inside the grid and not a wall. */
    predicate Passable(rows: seq<seq<Node>>, q: Point)
      requires Fits(rows)
    {
      IsValidPoint(q) && !Cell(rows, q).isWall
    }

    /** The passable cells one move from `p`, in the order down, right, up,
        left (each neighbour's rank in that order is `Direction`). */
    method GetNeighbors(p: Point) returns (neighbors: seq<Point>)
      requires WellFormed()
      ensures |neighbors| <= 4
      ensures forall q :: q in neighbors <==> Adjacent(p, q) && Passable(nodes, q)
      ensures InDirectionOrder(p, neighbors)
    {
      neighbors := [];
      var i := 0;
      while i < |Directions|
        invariant 0 <= i <= 4 && |neighbors| <= i
        invariant forall q :: q in neighbors <==> q in Candidates(p)[..i] && Passable(nodes, q)
        invariant InDirectionOrder(p, neighbors)
        invariant |neighbors| > 0 ==> Direction(p, neighbors[|neighbors| - 1]) < i
      {
        var dir := Directions[i];
        var newX, newY := p.x + dir.x, p.y + dir.y;
        assert Candidates(p)[..i + 1] == Candidates(p)[..i] + [Point(newX, newY)];
        assert Direction(p, Point(newX, newY)) == i;
        if newX >= 0 && newX < width && newY >= 0 && newY < height {
          if !nodes[newY][newX].isWall {
            assert (neighbors + [Point(newX, newY)])[..|neighbors|] == neighbors;
            neighbors := neighbors + [Point(newX, newY)];
          }
        }
        i := i + 1;
      }
      assert Candidates(p)[..4] == Candidates(p);
      forall q
        ensures q in neighbors <==> Adjacent(p, q) && Passable(nodes, q)
      {
        CandidatesAreAdjacent(p, q);
      }
    }

    /** Clears the search state of every node, keeping walls and markers. */
    method ResetGrid()
      requires WellFormed()
      modifies this
      ensures WellFormed()
      ensures forall p :: IsValidPoint(p) ==> Cell(nodes, p) == Cleared(Cell(old(nodes), p))
    {
      var y := 0;
      while y < height
        invariant 0 <= y <= height
        invariant Fits(nodes)
        invariant forall p :: IsValidPoint(p) ==>
          Cell(nodes, p) == if p.y < y then Cleared(Cell(old(nodes), p)) else Cell(old(nodes), p)
      {
        assert |nodes[y]| == width;
        var x := 0;
        while x < width
          invariant 0 <= x <= width
          invariant Fits(nodes)
          invariant forall p :: IsValidPoint(p) ==>
            Cell(nodes, p) == if p.y < y || (p.y == y && p.x < x) then Cleared(Cell(old(nodes), p))
                              else Cell(old(nodes), p)
        {
          var here := Point(x, y);
          nodes := Put(nodes, here, Cleared(Cell(nodes, here)));
          x := x + 1;
        }
        y := y + 1;
      }
    }
  }

  /** Resetting twice is resetting once. */
  lemma ClearedIdempotent(n: Node)
    ensures Cleared(Cleared(n)) == Cleared(n)
  {
  }
}
