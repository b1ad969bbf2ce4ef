# Pathfinding visualizer: grid editor, animation player and A* server

This project models a small web application in Dafny. A browser page keeps a square grid of nodes. The user paints walls on it, moves the start and end markers, and asks a Go server for an A* search. The server validates the request, searches the grid, and answers with the path, the explored cells and, when asked, one animation frame per explored cell. The page then replays the frames one timer tick at a time, or paints the result directly.

The model follows the program's own structure:

- `common.dfy` (`Common`): the values both sides exchange. These are points, animation steps and the search response.
- `grid_types.dfy` (`GridTypes`): the solver's grid from `internal/pathfinding/types.go`. It is a class whose `nodes` the search updates in place. It has bounds checking, `GetNeighbors` (a loop over four directions) and `ResetGrid` (a nested loop).
- `search.dfy` (`Search`): `internal/pathfinding/astar.go`. It has the heap's slice operations, `CreateGrid`, `reconstructPath`, `getOpenSetPoints` and the A* loop with its response and frame bookkeeping. The order in which the binary heap hands out nodes comes from floating-point scores. Here that order is an input, `pops`: the k-th pop takes the entry at `pops[k] % |open|`, or the root once `pops` runs out. The search is proved against that input:
  - on success, the path is a walk of distinct explored cells from start to end;
  - on failure, the explored cells form a region closed under passable moves that contains the start and not the end, so no walk reaches the end;
  - the frames are one per explored cell, and only the last can be complete.
- `numerals.dfy` (`Numerals`): `strconv.Atoi`, the decimal numeral, and Go's `string(rune(i))`.
- `handlers.dfy` (`Handlers`): `cmd/main.go`. It has the validation chain of `handlePathfinding` (first failing check decides the 400 reply), the marking of the start and end nodes, and `handleCreateGrid`.
- `client_grid.dfy` (`ClientGrid`): the browser grid of `web/static/js/app.js` as values, and what each edit, frame and result does to it. It also holds the colour precedence of `draw`.
- `visualizer.dfy` (`Visualizer`): the `PathfindingVisualizer` class. It holds the grid, the mouse state, the animation cursor and the speed as fields. Its nested loops update the grid in place, each proved equal to the `ClientGrid` function it implements. A timer firing is a call of `Tick`, and `Play` is the chain of ticks each schedules, a recursive call per timer.
- `protocol.dfy` (`Protocol`): facts that tie the two sides together. A grid that the page's guard lets through passes the server's checks. An animated reply is played to its end.

Where the code and the written design disagree, the model follows the code:

- `onMouseMove` toggles the cell on every move event, including moves that stay inside the cell just toggled. It does not toggle only on entering a new cell.
- Nothing rejects moving one marker onto the other. One node then carries both flags. Only `findPath` refuses to send such a grid.
- `findPath` clears the painted search state before it sends a request, so the painting is gone even when the request fails.
- `generateMaze` has no density parameter: the wall chance is the constant 0.3.

## Model

| member | source | states |
|---|---|---|
| GridTypes.Grid.constructor | internal/pathfinding/types.go:26-33 | a grid records its dimensions, nodes and markers as given |
| GridTypes.Candidates | internal/pathfinding/types.go:75-78 | the four cells tried are the point moved by each direction, in the order down, right, up, left |
| GridTypes.CandidatesAreAdjacent | internal/pathfinding/types.go:75-78 | a cell is among the candidates exactly when it is one move away |
| GridTypes.Direction | internal/pathfinding/types.go:75 | the rank of a neighbour is the index of its direction |
| GridTypes.InDirectionOrderRanks | internal/pathfinding/types.go:77-87 | in a list kept in direction order, every earlier point ranks below every later one, so no point repeats |
| GridTypes.Grid.ValidPointIndexesRows | internal/pathfinding/types.go:93-95 | on a grid of the declared shape, the valid points are exactly the positions that index a node |
| GridTypes.Grid.GetNeighbors | internal/pathfinding/types.go:73-90 | at most four neighbours; a point is returned exactly when it is adjacent, inside and not a wall; they come in direction order |
| GridTypes.Cleared | internal/pathfinding/types.go:101-108 | a reset node has cost 0, no parent and no path, visited or open flag, and keeps its point, wall and markers |
| GridTypes.Grid.ResetGrid | internal/pathfinding/types.go:98-111 | every node is reset and the shape is kept |
| GridTypes.ClearedIdempotent | internal/pathfinding/types.go:98-111 | resetting twice is resetting once |
| Search.PriorityQueue.constructor | internal/pathfinding/astar.go:54-55 | the open set starts empty |
| Search.PriorityQueue.Swap | internal/pathfinding/astar.go:17-19 | the two entries change places and nothing else changes |
| Search.PriorityQueue.Push | internal/pathfinding/astar.go:21-23 | the entry is appended and the length grows by one |
| Search.PriorityQueue.Pop | internal/pathfinding/astar.go:25-31 | the last entry is returned and removed, and the length shrinks by one |
| Search.GetOpenSetPoints | internal/pathfinding/astar.go:190-196 | the points of the open set, same length and same order |
| Search.CreateGrid | internal/pathfinding/astar.go:199-217 | height rows of width blank nodes, each recording its position; start (0,0), end (width-1,height-1) |
| Search.ReconstructPath | internal/pathfinding/astar.go:163-173 | the chain ends at the given node, starts at a node without parent, each point is the parent of the next, and the chain follows strictly increasing closing order (so it ends) |
| Search.EnclosedHasNoWalk | internal/pathfinding/astar.go:151-159 | a region closed under passable moves that holds the start and not the end admits no walk from start to end |
| Search.PopIndex | internal/pathfinding/astar.go:68 | the entry a pop takes is inside the open set |
| Search.RemoveEntry | internal/pathfinding/astar.go:25-31 | swapping an entry to the end and popping removes exactly that entry and keeps the rest distinct |
| Search.ClosingKeepsInv | internal/pathfinding/astar.go:68-75 | closing the popped node keeps the search invariant (queue, closed list, flags, parent links, frontier) |
| Search.CloseNext | internal/pathfinding/astar.go:68-75 | the popped node was not closed and is now closed and appended to the explored list; the queue loses exactly that node; the node array changes only at that node, whose open flag goes off and visited flag on; no node has it as parent yet |
| Search.DiscoverKeepsQueue | internal/pathfinding/astar.go:133-140 | opening a neighbour keeps the open set duplicate-free and the open flags in step with it |
| Search.DiscoverKeepsInv | internal/pathfinding/astar.go:130-147 | opening or re-parenting a neighbour keeps the search invariant |
| Search.Discover | internal/pathfinding/astar.go:124-147 | a closed neighbour changes nothing; a new one gets the current node as parent, cost one more than the current node's, the open flag, and is pushed; an open one is re-parented with the lower cost when that is lower, and otherwise nothing changes; the invariant holds and the neighbour ends closed or open |
| Search.DiscoverAll | internal/pathfinding/astar.go:124-148 | after the neighbour loop every neighbour is closed or open |
| Search.ExpansionDone | internal/pathfinding/astar.go:122-148 | once every passable neighbour of the expanded node is closed or open, the frontier invariant holds again |
| Search.ExpandNeighbors | internal/pathfinding/astar.go:122-148 | expanding a closed node restores the full search invariant |
| Search.MarkPath | internal/pathfinding/astar.go:82-87 | exactly the path points other than start and end gain the path flag; nothing else changes |
| Search.FailedSearchEncloses | internal/pathfinding/astar.go:151-159 | when the open set empties without closing the end, the explored cells enclose the start away from the end |
| Search.ClosedIsExplored | internal/pathfinding/astar.go:72-75 | the closed set and the explored list hold the same cells, all inside the grid, none twice |
| Search.ClosingShrinks | internal/pathfinding/astar.go:66-75 | each iteration closes a new cell, so the loop ends |
| Search.StepRecorded | internal/pathfinding/astar.go:111-120 | a non-final frame records the current node and the explored prefix, is not complete, and its open set is the frontier: the unexplored passable cells next to a cell explored before the current one |
| Search.QueueIsFrontier | internal/pathfinding/astar.go:66-75 | right after a node is closed, a cell is queued exactly when it is unexplored, passable and next to a cell explored before it |
| Search.QueuedNextToExplored | internal/pathfinding/astar.go:66-75 | every queued cell is unexplored, passable and next to its parent, explored before the node just closed |
| Search.NextToExploredQueued | internal/pathfinding/astar.go:66-75 | every unexplored passable cell next to a cell explored before the node just closed is queued |
| Search.FrontierKept | internal/pathfinding/astar.go:72-75 | a frame's open set stays the frontier of its own explored prefix when the explored list grows |
| Search.FramesFrontierExtended | internal/pathfinding/astar.go:89-99 | appending a frame whose open set is the frontier keeps every frame's open set the frontier |
| Search.ChainIsWalk | internal/pathfinding/astar.go:78-79 | the parent chain of the closed end is a walk from the start through distinct explored cells |
| Search.FoundReported | internal/pathfinding/astar.go:100-108 | the success response reports a walk, its length as one less than its point count, and the explored list |
| Search.FinalFrame | internal/pathfinding/astar.go:89-99 | with animation, the final frame is the only complete one and carries the path |
| Search.NotFoundReported | internal/pathfinding/astar.go:151-159 | the failure response has an empty path, length 0, the explored count, and an enclosing explored region |
| Search.Finish | internal/pathfinding/astar.go:78-108 | reaching the end gives a successful, fully reported response and marks the path |
| Search.InitialInv | internal/pathfinding/astar.go:47-57 | the reset grid with only the start open satisfies the search invariant |
| Search.Begin | internal/pathfinding/astar.go:35-57 | the grid is reset and the open set holds the start alone |
| Search.Advance | internal/pathfinding/astar.go:111-148 | a node that is not the end is recorded as a frame and expanded |
| Search.Iterate | internal/pathfinding/astar.go:66-148 | one loop iteration pops the entry the pop order picks, which was not closed, adds it to the closed set and the explored list, and answers with a successful, fully reported response exactly when it is the end; otherwise the invariant holds again |
| Search.AStar | internal/pathfinding/astar.go:34-160 | walls and markers are kept; the response is reported against the grid received, with every frame's open set the frontier of its explored prefix; a node is visited exactly when explored and on the path exactly when it is an inner point of a found path |
| Numerals.DigitChar | cmd/main.go:113 | the digit character of a value below ten reads back as that value |
| Numerals.Atoi | cmd/main.go:137 | a parsed value fits a 64-bit int and comes from a string ending in a digit |
| Numerals.AtoiAcceptsSignedDigits | cmd/main.go:137-145 | a string is accepted with value v exactly when it is one or more digits, optionally after a `+` or `-`, whose signed value is v and fits a 64-bit int |
| Numerals.Decimal | cmd/main.go:113 | the numeral is non-empty, all digits, without a leading zero, and has the value of the number |
| Numerals.AtoiReadsDecimal | cmd/main.go:137 | parsing the numeral of a number gives the number back |
| Numerals.Int32 | cmd/main.go:113 | the conversion to `rune` keeps the index modulo 2^32 as a signed 32-bit value, and an index in range unchanged |
| Numerals.RuneString | cmd/main.go:113 | `string(rune(i))` is one character: the code point of the truncated index when that is a Unicode scalar value, U+FFFD otherwise |
| Numerals.RuneStringIsNotDecimal | cmd/main.go:113 | that character is never the numeral of `i` |
| Handlers.RowMismatchAsWrittenIsWrong | cmd/main.go:113 | the text as written never carries the row's numeral, and two rows give the same text |
| Handlers.ErrorMessagesDistinct | cmd/main.go:67-117 | with the row as a numeral, different refusals have different texts |
| Handlers.FirstBadRow | cmd/main.go:109-117 | the first row, in order, whose length is not the width, or none when all rows fit |
| Handlers.CheckPassesWellFormed | cmd/main.go:66-117 | a request passes the chain exactly when the grid is non-empty, has the declared shape, and has distinct start and end inside it |
| Handlers.Validate | cmd/main.go:66-117 | the loop over the rows refuses as the check chain does, first failing check first |
| Handlers.ReportedOnSameWalls | cmd/main.go:119-125 | marking start and end does not change what the response says, because it only looks at walls |
| Handlers.HandlePathfinding | cmd/main.go:52-131 | a refused request gets 400 with its message and the grid is untouched; an accepted one gets 200 with a response reported against the received grid, and start and end are marked |
| Handlers.HandleCreateGrid | cmd/main.go:133-158 | width is checked before height; each must parse and lie in [5,100]; otherwise 200 with a fresh grid of that size |
| ClientGrid.NewGridMarked | web/static/js/app.js:48-71 | a new grid records positions; its markers are well placed exactly when the size is at least 2, and distinct unless the size is 3 |
| ClientGrid.ToggleTwice | web/static/js/app.js:181-187 | toggling a cell twice restores the grid |
| ClientGrid.ToggleKeepsMarks | web/static/js/app.js:181-187 | toggling touches only its cell, changes nothing on a marker, and keeps markers well placed |
| ClientGrid.MoveStartKeepsMarks | web/static/js/app.js:153-165 | the start moves, no wall lies under it, only the old and new start nodes change, and the new start node carries the end flag exactly when it is the end's cell |
| ClientGrid.MoveEndKeepsMarks | web/static/js/app.js:167-179 | the same for the end |
| ClientGrid.ClearedBoardShows | web/static/js/app.js:347-356 | no transient flag is left, walls and markers are kept, and clearing again changes nothing |
| ClientGrid.WallsClearedShows | web/static/js/app.js:369-378 | with well placed markers no wall is left, and only walls change |
| ClientGrid.MazeWalls | web/static/js/app.js:380-392 | the walls are exactly the non-marker cells whose draw is under 0.3; markers stay well placed |
| ClientGrid.FrameShows | web/static/js/app.js:276-302 | a frame keeps the structure; markers carry no transient flag; any other cell is visited, open or on the path exactly when the step lists it so |
| ClientGrid.FramePainted | web/static/js/app.js:276-302 | clearing and then painting the closed, open and (for a complete step) path cells in turn gives `Frame`, defined cell by cell |
| ClientGrid.FrameForgetsHistory | web/static/js/app.js:276-302 | a frame does not depend on what earlier frames painted |
| ClientGrid.CellColor | web/static/js/app.js:424-431 | the colour is that of the highest-ranked flag the node carries: wall, start, end, path, open, explored, empty |
| ClientGrid.Reach | web/static/js/app.js:279-284 | the number of listed points painted before the first one off the grid: all before it are inside, and the one at it is not |
| ClientGrid.TryFrameShows | web/static/js/app.js:276-302 | a frame is shown in full exactly when every point of the step is on the grid, and then the grid is `Frame` of the old one; a partly shown frame keeps the structure |
| ClientGrid.TryFrameIsFrame | web/static/js/app.js:276-302 | a frame whose points are all on the grid paints `Frame` |
| ClientGrid.TryDisplayShows | web/static/js/app.js:326-345 | a result is painted in full exactly when every path and explored point is on the grid, and then the grid is `Displayed` of the old one; a partly painted one keeps the structure |
| ClientGrid.DisplayedColors | web/static/js/app.js:326-345 | a result painted on a cleared grid colours the markers, the walls, the path cells, the other explored cells and the rest empty |
| ClientGrid.FramesShown | web/static/js/app.js:268-320 | the player shows frames up to the first complete one and never runs past the last step |
| ClientGrid.ShowsEveryStep | web/static/js/app.js:309-320 | when only the last step can be complete, every step is shown |
| Visualizer.TickDelay | web/static/js/app.js:317 | speeds 1 to 10 give pauses of 100 down to 10 ms |
| Visualizer.PathfindingVisualizer.constructor | web/static/js/app.js:2-38 | size 30, speed 5, no drawing, no steps, and a grid with distinct, well placed markers |
| Visualizer.PathfindingVisualizer.CreateGrid | web/static/js/app.js:48-75 | the grid is rebuilt at the current size with start (1,1) and end (size-2,size-2) |
| Visualizer.PathfindingVisualizer.ResetGrid | web/static/js/app.js:398-403 | the same fresh grid, after clearing the painting |
| Visualizer.PathfindingVisualizer.OnGridSizeChange | web/static/js/app.js:405-411 | the new size and a fresh grid of it |
| Visualizer.PathfindingVisualizer.OnSpeedChange | web/static/js/app.js:413-416 | the speed is the new value |
| Visualizer.PathfindingVisualizer.SetStart | web/static/js/app.js:153-165 | the grid becomes `WithStart` of the old one and the start is the target; when the old start is off the grid (the grid shrank) it throws before changing anything |
| Visualizer.PathfindingVisualizer.SetEnd | web/static/js/app.js:167-179 | the grid becomes `WithEnd` of the old one and the end is the target; when the old end is off the grid it throws before changing anything |
| Visualizer.PathfindingVisualizer.ToggleWall | web/static/js/app.js:181-187 | the grid becomes `Toggled` of the old one |
| Visualizer.PathfindingVisualizer.ClearVisualization | web/static/js/app.js:347-356 | the nested loop leaves the grid `ClearedBoard` of the old one |
| Visualizer.PathfindingVisualizer.ClearPath | web/static/js/app.js:358-367 | the painting is cleared |
| Visualizer.PathfindingVisualizer.ClearWalls | web/static/js/app.js:369-378 | the nested loop leaves the grid `WallsCleared` of the old one |
| Visualizer.PathfindingVisualizer.GenerateMaze | web/static/js/app.js:380-396 | the grid becomes `Maze` of the old one |
| Visualizer.PathfindingVisualizer.DrawWalls | web/static/js/app.js:384-392 | the nested loop walls the non-marker cells whose draw is under 0.3 |
| Visualizer.PathfindingVisualizer.PaintPoints | web/static/js/app.js:279-284 | one pass over a point list paints the listed cells up to the first one off the grid (`PaintReach`), and reports whether it got through the whole list |
| Visualizer.PathfindingVisualizer.DisplayResult | web/static/js/app.js:326-345 | the grid becomes what `TryDisplay` paints before a throw; it gets through exactly when every point is on the grid, and then the grid is `Displayed` of the old one |
| Visualizer.PathfindingVisualizer.Tick | web/static/js/app.js:268-321 | past the last step nothing changes; a step with a point off the grid throws part way (`TryFrame`), leaving the cursor and scheduling nothing; otherwise the grid is `Frame` of the step, the cursor advances, and the next tick is due after the speed's delay unless the step was complete |
| Visualizer.PathfindingVisualizer.Play | web/static/js/app.js:263-321 | the timer chain ends; when every remaining step is on the grid it never throws, shows `FramesShown` frames, ends finished exactly when the last frame shown was complete, and leaves the last frame shown (`Frame` of it) on the grid; showing none, it stops and leaves the grid as it was |
| Visualizer.PathfindingVisualizer.FindPath | web/static/js/app.js:189-217 | the painting is cleared; a request carrying the grid is built exactly when the rows of both markers exist (otherwise the debug log throws) and start and end differ |
| Visualizer.PathfindingVisualizer.ReceiveResult | web/static/js/app.js:236-253 | a failure paints nothing; a success with frames installs them and shows the first at once, or throws part way on a point off the grid; one without frames is painted directly, or part way before a throw |
| Visualizer.PathfindingVisualizer.OnMouseDown | web/static/js/app.js:110-124 | the button is down even off the grid; on the grid a right click moves the start, a ctrl-click the end (each throwing without change when the old marker is off the grid), any other click toggles a wall and starts drawing |
| Visualizer.PathfindingVisualizer.OnMouseMove | web/static/js/app.js:126-133 | while drawing, every move over the grid toggles the cell, even the one toggled last; otherwise nothing changes |
| Visualizer.PathfindingVisualizer.OnMouseUp | web/static/js/app.js:135-138 | the button is up and drawing stops |
| Protocol.GuardedRequestAccepted | web/static/js/app.js:205-217 | a grid with well placed, distinct markers passes every check of the pathfinding handler and keeps its walls and markers there |
| Protocol.PlayerShowsEveryFrame | web/static/js/app.js:236-320 | an animated successful reply whose frames fit the grid is received and played to the end: the cursor reaches the last frame, the chain ends finished, and the grid shows the last frame: a non-marker cell is on the path exactly when the reply's path holds it and visited exactly when it was explored, and markers carry no flag |

## Findings

| source | as written | input that shows it | evidently intended | confidence | as-written member | corrected member |
|---|---|---|---|---|---|---|
| cmd/main.go:113 | the row index is turned into text by `string(rune(i))`, which gives the character whose code point is `i` | a grid whose row 1 is too short: the text ends in U+0001 where "1" belongs; rows 0xD800 and 0xD801 give the same text (both U+FFFD) | the decimal numeral of the row, as the log line beside it prints with `%d` | high; not executed | Handlers.RowMismatchAsWrittenIsWrong | Handlers.ErrorMessagesDistinct |

`Handlers.ErrorMessage` writes the row with `Numerals.Decimal`, and the handler uses it.

## Left out

- Floating point: the H and F scores, `ManhattanDistance`, `EuclideanDistance` and `calculatePathLength` are not modelled. With unit moves the Euclidean length of a path is its point count less one, and that is the `pathLength` the model reports. The heuristic name in the request only selects one of these functions, so it is not a parameter.
- The heap ordering of `container/heap` depends on floating-point `Less`. The pop order is an input, and `heap.Pop` is modelled as moving the chosen entry to the end and popping it. The sift-up and sift-down reorderings are not modelled, so the order of `open_set` in a frame follows the model's slice.
- Search.AStar: it does not state that the path found is a shortest one, or which path it is, because that depends on the pop order.
- Node identity: the Go search identifies a node by the `Point` field the client sent. The model identifies it by its position. The browser always sends matching points (`ClientGrid.NewGridMarked` proves it for a fresh grid), but the server does not check this.
- Numerals.Atoi: models an optional sign followed by ASCII digits with a 64-bit range check. The other error kinds of `strconv.Atoi` are the same refusal here.
- JSON decoding and the "Invalid request format" reply (cmd/main.go:55-61) are not modelled. Gin routing, CORS, the port and logging are left out too.
- Canvas drawing, the current-node highlight, `drawCell`, `drawGridLines`, `initializeCanvas` and the status, message, loading and stats widgets are left out, as is the debug button.
- `getMousePos`: the mouse handlers receive cell coordinates directly. The keyboard handler `onKeyDown` only dispatches to `findPath` and `resetGrid`.
- `fetch`, `async` and error replies in `findPath`: only the local guard, and what the page does with a successful reply, are modelled.
- Timers: `setTimeout`, `requestAnimationFrame` and `cancelAnimationFrame` are not modelled. A tick is a method call that can come at any time, also after the grid was resized or a reply arrived late; the code does not prevent this, because `cancelAnimationFrame` does not cancel a pending `setTimeout`. A tick whose step has a point off the grid throws part way, which the model returns as `Crashed` with the grid as painted so far.
- Exceptions: where the page indexes a row or a node that does not exist it throws. The model says what the grid is at that point and that nothing further happens; the browser's error handling after the throw is not modelled. A grid of size 0 or 1 has its markers off the grid, so `SetStart`, `SetEnd` and `FindPath` take this path there.
- Handlers.HandlePathfinding: answers a width mismatch with the decimal numeral of the row (`Handlers.ErrorMessage`); the text the code builds is `Handlers.RowMismatchAsWritten`, see Findings.
- Visualizer.PathfindingVisualizer.GenerateMaze: `Math.random()` is an input with one number per cell, in row-major order. The page draws only for non-marker cells, so which random number a cell receives is not modelled.
- Visualizer.PathfindingVisualizer.OnGridSizeChange: `parseInt` of the size control is taken to give a natural number.
- The page's grid keeps `width` and `height` equal to the size control; the model states this as part of `Valid`.
