# Grid path-finding visualiser: search steps, path walk and board rewrites

The repository animates path-finding on a 20 x 40 board. The board is a rectangular grid of
numbers:

- `-1` is a wall.
- `0` is the start at (0, 0).
- `1000` is an unvisited cell.
- `1001` is a cell that depth-first search has discovered but not yet reached.
- `4000` is the target.
- Any other value is a distance label.

A search advances one step per tick. Each step consumes one entry of the frontier, rewrites
the grid in place, and returns the consumed cell, the new frontier and a `done` flag. There
are three steps:

- **Breadth-first** (`bfs`) queues its frontier.
- **Depth-first** (`dfs`) stacks its frontier.
- **Hybrid** (`dfsToBfs`) is depth-first until it pops the target. It then relabels the cells
  breadth-first from the start with `minVal`, and walks the labels back from the target with
  `findPath` to produce a path through the cells the depth-first phase explored.

The board component builds fresh and random grids, resets a board before a rerun, edits walls
and the target with the mouse, and decides on each tick whether a step is taken.

The model is split into these modules:

- `Cells` (cells.dfy): the cell encoding, coordinates, and the neighbour order `DIRS` (right,
  left, up, down). It also holds the value-level view of a grid (`seq<seq<int>>`) and the
  neighbour scans every step performs, as functions with their lemmas.
- `Sweep` (sweep.dfy): the neighbour loop shared by `bfs` and `dfs`, as methods on an
  `array2<int>`.
- `BfsStep` (bfs.dfy), `DfsStep` (dfs.dfy) and `Hybrid` (hybrid.dfy): the three steps as
  methods that modify the array grid. Each is proved against a value-level specification,
  and each comes with the invariant a run of that step keeps.
- `ShortestPath` (path.dfy): `findPath` as a method, specified by the function `Walk`.
- `Board` (board.dfy): the grid rewrites of the board component, as pure functions.
- `Controller` (controller.dfy): the run state of the board component and its tick rule.

Every method that touches the array takes a ghost grid that mirrors the array's contents. It
states the new contents as a function of that grid. For the relabelling pass of the hybrid
step, that function is given by the list of loop states the pass goes through (`Hybrid.Iterated`).
`Hybrid.PassUnique` proves that list is determined by the starting grid.

## Model

| member | source | states |
|---|---|---|
| Cells.Select | src/algos/bfs.ts:8-13 | the neighbours a scan collects lie inside the grid, pass the cell test and are orthogonally adjacent, at most one per direction |
| Cells.SelectMembers | src/algos/bfs.ts:8-20 | a coordinate is collected exactly when it is the in-bounds neighbour, in some scanned direction, that passes the test |
| Cells.SelectDistinct | src/algos/bfs.ts:17-20 | a scan never collects the same coordinate twice |
| Cells.FirstHit | src/algos/bfs.ts:14-16 | the direction where a scan that returns on the target stops: the first in-bounds neighbour passing the test, with none before it |
| Cells.FirstHitFound | src/algos/bfs.ts:14-16 | the scan stops early exactly when some in-bounds neighbour holds the value looked for |
| Cells.Write | src/algos/dfs.ts:8 | writing one cell changes exactly that cell of the grid, to the written value |
| Sweep.Visit | src/algos/bfs.ts:9-20 | one direction: an out-of-bounds neighbour is skipped, a target neighbour is reported with the grid unchanged, and an unvisited neighbour is overwritten with the mark and collected |
| Sweep.Scan | src/algos/bfs.ts:8-22 | the loop claims exactly the unvisited neighbours before the first target in `dirs` order, writes the mark into them and nowhere else, and reports whether any neighbour holds the target |
| Sweep.ClaimedFacts | src/algos/bfs.ts:14-20 | the claimed cells are in-bounds, adjacent, held 1000 and are distinct; there are at most four; a cell is claimed iff it is an unvisited neighbour in a direction before the first target |
| BfsStep.Bfs | src/algos/bfs.ts:3-23 | consumes the front entry and returns it as `current`; the frontier becomes the rest plus the claimed cells at the back; only claimed cells change, each to the current label plus one; `done` iff some in-bounds neighbour holds 4000 |
| BfsStep.LayeredInit | src/components/Grid.tsx:56 | the initial queue, the start alone, meets the queue invariant |
| BfsStep.LayerStep | src/algos/bfs.ts:6-20 | a step keeps the queue's labels non-decreasing and within one of the front, and the next cell taken has a label no smaller than this one |
| BfsStep.StepValues | src/algos/bfs.ts:17-19 | after a step, kept queue entries keep their label and appended ones carry the taken label plus one |
| BfsStep.StepOrdered | src/algos/bfs.ts:6-19 | after a step the queue's labels are non-decreasing front to back |
| BfsStep.StepSpan | src/algos/bfs.ts:6-19 | after a step no queued label exceeds the front label by more than one |
| DfsStep.Dfs | src/algos/dfs.ts:3-24 | pops the last entry and writes its distance unconditionally; unvisited neighbours before the first target become 1001 and are pushed with the distance plus one; nothing else changes; `done` iff an in-bounds neighbour holds 4000 |
| DfsStep.SpreadStep | src/algos/dfs.ts:18-20 | a step keeps the frontier free of duplicate coordinates and keeps every entry's cell no longer 1000 |
| DfsStep.SpreadKept | src/algos/dfs.ts:6-20 | the kept entries and the pushed entries share no coordinate, so the new frontier has none twice |
| DfsStep.SpreadCells | src/algos/dfs.ts:6-20 | after a step every frontier cell is in bounds and not 1000, and no kept entry is among the pushed cells |
| DfsStep.SpreadNext | src/algos/dfs.ts:3-24 | one step, or none once the frontier is empty, keeps the frontier invariant |
| DfsStep.SpreadRun | src/algos/dfs.ts:3-24 | in every state of a run of steps from a frontier meeting the invariant, no coordinate is on the frontier twice |
| DfsStep.ClaimsPushed | src/algos/dfs.ts:6-21 | a step pops the top entry and pushes exactly the cells it claims, with the popped distance plus one |
| DfsStep.NextMarked | src/algos/dfs.ts:8-20 | a step that does not pop the distance 1000 leaves every cell that is not 1000 off 1000 |
| DfsStep.NextClaims | src/algos/dfs.ts:18-19 | every cell a step claims holds 1001 afterwards |
| DfsStep.StaysMarked | src/algos/dfs.ts:8-20 | once a cell has left 1000 it never holds 1000 again later in the run, while no popped distance is 1000 |
| DfsStep.ClaimedMarked | src/algos/dfs.ts:15-20 | a step that does not pop the distance 1000 claims no cell that is already off 1000 |
| DfsStep.PushedOnce | src/algos/dfs.ts:18-20 | a coordinate pushed at one step of a run is not pushed at any later step, so no cell receives a distance from two pushes |
| DfsStep.SpreadInit | src/components/Grid.tsx:56 | the initial frontier, the start at distance 0, meets the frontier invariant |
| ShortestPath.Descend | src/algos/shortestPath.ts:7-18 | one round of the inner loop: the final position and the added cells are those of the `Round` specification (no `break` after a match) |
| ShortestPath.FindPath | src/algos/shortestPath.ts:3-21 | the grid is only read and the result is the set of cells the backward walk from `end` moves to |
| ShortestPath.RoundFacts | src/algos/shortestPath.ts:7-17 | every cell a round moves to is in bounds, holds the wanted value and is adjacent to the previous position; the round ends on the last such cell |
| ShortestPath.WalkLabels | src/algos/shortestPath.ts:6-16 | every cell of a K-round walk is in bounds with a label in 0..K-1, and the labels never increase along the walk |
| ShortestPath.WalkChain | src/algos/shortestPath.ts:6-18 | the walk is a chain of orthogonal neighbours starting next to the end cell |
| ShortestPath.JoinChain | src/algos/shortestPath.ts:6-18 | a chain ending on the cell where a second chain starts joins with it into one chain |
| ShortestPath.RoundStill | src/algos/shortestPath.ts:7-17 | when no cell labelled below K has an equal neighbour, a round looking for a label below K from a cell holding it does not move |
| ShortestPath.RoundOnce | src/algos/shortestPath.ts:7-18 | under the same condition a round looking for a label below K moves exactly once when some direction holds it, and not at all otherwise |
| ShortestPath.RoundExact | src/algos/shortestPath.ts:6-16 | when every label 1..K has a neighbour one lower and no label below K has an equal neighbour, a round from a cell holding K moves onto exactly one cell, which holds K-1; the sentinels 1000, 1001 and 4000 may sit side by side |
| ShortestPath.WalkExact | src/algos/shortestPath.ts:6-16 | under the same condition the walk from a cell holding K has exactly K cells, labelled K-1 down to 0 |
| ShortestPath.TrailBounds | src/algos/shortestPath.ts:6-16 | every path cell is in bounds with a label below the end's, the end is never on its own path, and a non-positive end gives an empty path |
| ShortestPath.RetraceStep | src/algos/shortestPath.ts:6-18 | one outer iteration extends the path by exactly the cells that round of the walk moves to |
| ShortestPath.WalkNext | src/algos/shortestPath.ts:6-18 | a walk of K rounds is one round followed by a walk of K-1 rounds from where it ended |
| Hybrid.LowFacts | src/algos/dfsToBfs.ts:59-69 | the running minimum is Infinity iff no neighbour so far is in bounds and non-negative; otherwise it equals one such neighbour's value and is at most each |
| Hybrid.RelabelledFacts | src/algos/dfsToBfs.ts:57-71 | `minVal` is finite iff the cell holds 0 or has a non-negative in-bounds neighbour; then it is non-negative, one more than some such neighbour and at most one more than each |
| Hybrid.Consider | src/algos/dfsToBfs.ts:60-69 | one loop iteration folds the neighbour into the running minimum when it is in bounds and non-negative |
| Hybrid.Lowest | src/algos/dfsToBfs.ts:59-69 | the loop yields the least non-negative in-bounds neighbour value, or Infinity |
| Hybrid.MinVal | src/algos/dfsToBfs.ts:57-71 | `minVal` returns 0 on a cell holding 0, otherwise one plus the neighbour minimum (Infinity stays Infinity) |
| Hybrid.Gather | src/algos/dfsToBfs.ts:44-53 | the pushing loop collects exactly the in-bounds neighbours passing the test, in `dirs` order, and only reads the grid |
| Hybrid.Process | src/algos/dfsToBfs.ts:17-33 | a non-skipped cell of the pass gets its `minVal`, and the neighbours holding 0..999 in the new grid are queued in `dirs` order |
| Hybrid.Advance | src/algos/dfsToBfs.ts:13-35 | a visited head is dropped with grid and visited set unchanged; any other head is rewritten with its `minVal` in the current grid, becomes visited, and its neighbours holding 0..999 in the rewritten grid are queued at the back in `dirs` order; the list of loop states grows by exactly this state; the pass invariant is kept and the loop terminates |
| Hybrid.IterStep | src/algos/dfsToBfs.ts:13-35 | one more iteration extends the list of loop states |
| Hybrid.MoveUnique | src/algos/dfsToBfs.ts:14-33 | an iteration is deterministic: a loop state has at most one successor |
| Hybrid.StagesAgree | src/algos/dfsToBfs.ts:13-35 | two runs of the loop on the same grid agree state by state |
| Hybrid.PassUnique | src/algos/dfsToBfs.ts:13-35 | two runs of the loop on the same grid that both end with an empty queue are the same run |
| Hybrid.RelabelUnique | src/algos/dfsToBfs.ts:11-35 | any two results meeting the pass's contract on the same grid have the same rewritten grid and the same order of rewrites |
| Hybrid.PassSkip | src/algos/dfsToBfs.ts:14-16 | dropping an already visited head keeps the pass invariant |
| Hybrid.TraceStep | src/algos/dfsToBfs.ts:17-18 | rewriting the head with its `minVal` extends the trace of grids by one step |
| Hybrid.ClosedStep | src/algos/dfsToBfs.ts:19-33 | after a rewrite every neighbour labelled 0..999 of a visited cell is visited or queued |
| Hybrid.ClosedTail | src/algos/dfsToBfs.ts:14-16 | dropping a visited head keeps every labelled neighbour of a visited cell visited or queued |
| Hybrid.PassDone | src/algos/dfsToBfs.ts:13-35 | when the queue runs empty, every labelled neighbour of a rewritten cell was rewritten too |
| Hybrid.PassStep | src/algos/dfsToBfs.ts:14-33 | a non-skipped iteration moves the pass invariant to the rewritten grid and visits one more coordinate of the grid |
| Hybrid.RelabelStep | src/algos/dfsToBfs.ts:14-33 | rewriting the head with its `minVal` and queueing its labelled neighbours keeps the rewritten-cell and queue invariants |
| Hybrid.RelabelKept | src/algos/dfsToBfs.ts:17-18 | only the visited cells change; each held 0..999 before and holds a non-negative value after; the start keeps 0 |
| Hybrid.RelabelQueue | src/algos/dfsToBfs.ts:19-33 | every queued cell is in bounds, held 0..999 before unless already visited, and is the start or has a non-negative neighbour |
| Hybrid.Relabel | src/algos/dfsToBfs.ts:11-35 | the pass terminates, and the list of its states runs first in, first out from the start queued alone to an empty queue; it rewrites the cells of `order` in that order, each once, the start first, each with its `minVal` in the grid as it stood at that moment; they held 0..999, walls, 1000 and the target are never written, the start keeps 0, and every cell holding 0..999 next to a rewritten cell is rewritten too |
| Hybrid.KeptSupported | src/algos/dfsToBfs.ts:31-36 | the pass keeps every non-negative cell non-negative, so a cell with a non-negative neighbour keeps one |
| Hybrid.FinishDefined | src/algos/dfsToBfs.ts:36 | after the pass the popped target still holds 4000 and its `minVal` is finite |
| Hybrid.Finish | src/algos/dfsToBfs.ts:10-38 | on a target pop: run the pass (its first-in, first-out states, trace and closure), write the target's `minVal`, and return the `findPath` walk from the target over the rewritten grid |
| Hybrid.DfsToBfs | src/algos/dfsToBfs.ts:4-55 | pops the last entry; `done` iff the popped cell holds 4000, and then the frontier is empty and the path is the walk after relabelling; otherwise the stale or live continuation below, with an empty path |
| Hybrid.Resume | src/algos/dfsToBfs.ts:40-54 | a popped cell that is not 4000, 1000 or 0 is dropped with the grid unchanged; otherwise the live step |
| Hybrid.Spill | src/algos/dfsToBfs.ts:43-53 | the carried distance is written, and every in-bounds neighbour holding 1000 or more is pushed with the distance plus one, duplicates allowed |
| Hybrid.Pushes | src/algos/dfsToBfs.ts:44-53 | a live pop pushes at most four entries, each adjacent to the popped cell and carrying the distance plus one |
| Hybrid.HybridInit | src/components/Grid.tsx:56 | the initial frontier, the start at distance 0, satisfies the run invariant |
| Hybrid.HybridStep | src/algos/dfsToBfs.ts:8-53 | every non-target pop keeps the run invariant; a popped target has a non-negative neighbour, so its final `minVal` is finite |
| Hybrid.HybridLive | src/algos/dfsToBfs.ts:43-53 | a live pop keeps every stacked entry in bounds with a non-negative distance and a non-negative neighbour |
| Hybrid.LiveStacked | src/algos/dfsToBfs.ts:43-53 | writing a live entry's distance keeps the start at 0, and the kept entries and the pushed ones all meet the stack invariant |
| Hybrid.WrittenSigns | src/algos/dfsToBfs.ts:43 | writing a live entry's distance keeps the start at 0 and the sign of every cell |
| Hybrid.PushedSupported | src/algos/dfsToBfs.ts:44-52 | a neighbour pushed from a non-negative cell has that cell as a non-negative neighbour |
| Board.Fill | src/components/Grid.tsx:35-37 | the filled grid has the requested shape and every cell holds the fill value |
| Board.Clear | src/components/Grid.tsx:74 | every positive cell becomes 1000; walls and zeros stay; dimensions are kept |
| Board.EmptyGrid | src/components/Grid.tsx:34-42 | `emptyGrid` is 20 x 40; the target holds 4000, the start 0 and every other cell 1000 |
| Board.RandomGrid | src/components/Grid.tsx:54-65 | the random grid is 20 x 40; the target holds 4000, the start 0, and every other cell 1000 where its coin came up open and -1 where it came up closed |
| Board.EmptyGridReady | src/components/Grid.tsx:34-42 | `emptyGrid` is 20 x 40, all 1000 except the start 0 and the target 4000 |
| Board.RandomGridReady | src/components/Grid.tsx:54-65 | the random grid is 20 x 40 and ready; its walls are exactly the non-start, non-target cells whose coin came up closed |
| Board.Reset | src/components/Grid.tsx:73-77 | the reset keeps the dimensions; the target holds 4000, the start 0, every other positive cell 1000, and walls and zeros stay |
| Board.ResetIdempotent | src/components/Grid.tsx:74-77 | resetting twice equals resetting once |
| Board.ResetReadyFixed | src/components/Grid.tsx:74-77 | a ready board is a fixed point of the reset |
| Board.ResetReady | src/components/Grid.tsx:73-77 | resetting a grid a run may leave behind makes it ready |
| Board.Toggle | src/components/Grid.tsx:89-112 | as written: the dimensions stay; the target moves to the clicked cell only for the right button; every cell other than the clicked one, the target and the start is cleared as by a reset; for the left or right button the recorded target holds 4000 and the start 0 |
| Board.Edit | src/components/Grid.tsx:89-112 | as corrected: the same, and the recorded target holds 4000 and the start 0 for every button mask |
| Board.ToggleLeft | src/components/Grid.tsx:93-105 | a left click on a cell that is not start or target flips that cell between -1 and 1000 and leaves every other cell as the reset grid |
| Board.ToggleRight | src/components/Grid.tsx:93-100 | a right click is a reset with the clicked cell as the new target |
| Board.ToggleReady | src/components/Grid.tsx:89-112 | on a ready board both buttons keep it ready, with exactly one 4000 cell; a left click changes exactly the clicked cell |
| Board.ToggleLosesTarget | src/components/Grid.tsx:93-106 | as written, a middle click (mask 4) leaves no cell holding 4000 while the target stays recorded |
| Board.EditReady | src/components/Grid.tsx:89-112 | the corrected edit keeps a ready board ready for every button mask, with exactly one 4000 cell at the recorded target |
| Controller.Tick | src/components/Grid.tsx:118-130 | a tick steps only when started, the frontier is non-empty and not done; a step installs the new frontier and flag and adds one to the frame; otherwise nothing changes |
| Controller.Restart | src/components/Grid.tsx:79-82 | a reset leaves the frontier holding only the given start entry, frame 0, not done and paused |
| Controller.Initial | src/components/Grid.tsx:79-82 | every reset path leaves the frontier `[[0,0,0]]` (the start at distance 0), frame 0, not done and paused; it takes no step until play is pressed, and then it can |
| Controller.Replay | src/components/Grid.tsx:141-147 | the restart button resets and plays, so the next tick takes a step |
| Controller.Play | src/components/Grid.tsx:151-158 | play and pause only set the playing flag |
| Controller.TicksStill | src/components/Grid.tsx:119 | a run that cannot step stays unchanged whatever the ticks |
| Controller.TicksFrame | src/components/Grid.tsx:119-129 | each tick adds at most one to the frame and never changes the playing flag |
| Controller.TicksDone | src/components/Grid.tsx:119 | once a step reports the target, later ticks change nothing |
| Controller.TicksCount | src/components/Grid.tsx:119-129 | while steps keep a non-empty frontier and do not report the target, a playing run counts exactly one frame per tick |

## Left out

- Rendering, CSS class selection, `Cell.tsx` and `App.tsx` are not part of this model: they only draw the grid.
- The interval timer and speed (src/components/Grid.tsx:120-133), `forceUpdate` and `console.log` are left out. They are scheduling and logging; a tick is modelled as one call of `Controller.Tick`.
- `Math.random` and `randInt` are left out. `Board.RandomGrid` takes the coin of each cell (`open`) and the drawn target as parameters.
- Board.RandomGridReady: the target passed to `newRandom` only feeds `emptyGrid`, whose contents the coins overwrite. The model takes only the target drawn inside `newRandom`.
- Path keys (`"r-c"` strings) are modelled as coordinates, and the path as a `set<Pos>`.
- `Hybrid.MinVal`: JavaScript's `Infinity` is modelled as `None` of an `Option`.
- Hybrid.DfsToBfs requires that a popped target comes with a start holding 0 and a non-negative neighbour, so its final `minVal` is finite. `Hybrid.HybridInit` and `Hybrid.HybridStep` prove that every run from the initial frontier meets this. Where the source would write `Infinity` into the grid, the model does not go.
- Hybrid.Relabel requires the start to hold 0 and a non-empty grid. The run invariant provides both.
- Hybrid.Relabel states the pass as the list of its loop states, first in, first out, which determines the rewritten grid (`Hybrid.RelabelUnique`). It does not characterise the final labels as breadth-first distances; the pass reads neighbours that it rewrote earlier in the same sweep.
- No shortest-path property of the hybrid's path is proved. `findPath` walks the relabelled grid back from the target, and the model proves what that walk is (`ShortestPath.FindPath`) and when it has exactly one cell per label (`ShortestPath.WalkExact`), not that its length is minimal.
- DfsStep.SpreadRun and DfsStep.PushedOnce take a run as a sequence of states, each one step after the one before, and ignore the `done` flag. A run that reports the target stops earlier in the source, so what they prove covers that run too.
- DfsStep.PushedOnce requires that no popped entry carries the distance 1000 (`DfsStep.PopsBelow`): popping it would write 1000 back into a visited cell, which could then be pushed again. The model does not derive this bound from the size of the board.
- BfsStep.Bfs computes the mark (current label plus one) once before the loop, where the source reads `nextCells[row][col] + 1` on each push. The current cell is never a neighbour of itself, so the value is the same.
- BfsStep.LayerStep requires that the new label is neither 1000 nor 4000. A label reaching 999 would collide with the sentinels; a 20 x 40 board cannot reach it.
- Bounds checks use the array's second dimension where the source uses `nextCells[0].length`. The grid is a rectangular `array2`, so the two agree.
- In `emptyGrid`, `fill` shares one row array between all rows (src/components/Grid.tsx:36), but `map` builds fresh rows before any write. The model works on values and has no aliasing.
- The algorithm switch (src/components/Grid.tsx:160-168) does not reset the board or the run. The model follows the code and has no reset there.
- The board's algorithm map holds only `bfs` and `dfs` (src/components/Grid.tsx:18-21). `dfsToBfs` is modelled as a step in its own right and is not wired into `Controller`.
- Board.ToggleRight requires that the old target is not the start and holds a positive value, as it does on a ready board. Under these conditions the right click equals a reset with the new target.

## Findings

| source | as written | input that shows it | evidently intended | confidence | as-written member | corrected member |
|---|---|---|---|---|---|---|
| src/components/Grid.tsx:96-106 | `toggle` is bound to `onMouseDown`; a button mask other than 1 or 2 still applies the clearing map, which turns the target's 4000 into 1000, and never writes 4000 back | a middle click (`e.buttons === 4`) on any editable cell of a ready board | the board stays ready: the target keeps 4000, as after a reset | not executed | Board.ToggleLosesTarget | Board.EditReady |
