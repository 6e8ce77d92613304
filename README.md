# Maze solver (Search_Maze `maze.py`) in Dafny

This project models the search core of `maze.py`, a small maze solver.
The solver reads a text maze: `A` marks the start, `B` the goal, a space is
open and any other character is a wall. It searches the grid for a path
from `A` to `B` by depth-first graph search with a stack frontier, then
walks the parent links of the goal node back to the start.

What is modelled, file by file:

- `types.dfy` (`MazeTypes`): coordinates and the four actions with their
  deltas. Also the three exceptions of the solver as error values:
  `MalformedMaze` (with which uniqueness check failed), `EmptyFrontier` and
  `NoSolution`.
- `grid.dfy` (`MazeGrid`): the parsed grid (height, width, wall map, start,
  goal), `Neighbors`, and the meaning of a path and of reachability from the
  start.
- `text.dfy` (`MazeText`): the grid construction of `Maze.__init__`. It
  takes the text as a list of lines. `ParseGrid` checks that there is
  exactly one `A` and then exactly one `B`, and builds the wall rows with the
  source's nested loops.
- `nodes.dfy` (`Nodes`): search nodes. The source links each node to its
  parent object; here the expanded nodes live in an arena (a sequence) and a
  child holds its parent's index, which is always smaller than its own.
  `Reconstruct` is the parent-chain walk followed by the two reversals.
- `frontier.dfy` (`Frontiers`): `StackFrontier` and `QueueFrontier` as one
  `Frontier` class with a policy. `Add`, `ContainsState` and `Empty` are
  shared; `Remove` takes the last node (stack) or the first node (queue).
- `search.dfy` (`MazeSearch`): the `Maze` class with `Expand` (the
  neighbour loop of `solve`) and `Solve`. The loop invariant `SearchInv` is
  proved to hold initially and to be kept by every iteration. From it
  follow:
  - the result is `Ok` exactly when the goal is reachable;
  - a returned solution is a valid path from the start to the goal;
  - on `NoSolution` the explored set is exactly the set of reachable cells;
  - the loop terminates, and the removal count is at most height × width.
- `scenario.dfy` (`MazeScenario`): two concrete mazes go through the parser
  and the solver, and their outcomes are proved. One is an open 3 × 3 maze,
  which is solved. The other has two `B`s and is rejected.

`solve` in the source always uses `StackFrontier` (`maze.py:133`), and so
does `Solve`. `QueueFrontier` is defined (`maze.py:38-47`), but `solve`
never builds one. The queue policy is modelled and proved for the frontier
alone.

## Model

| member | source | states |
|---|---|---|
| MazeTypes.Apply | maze.py:113-118 | the cell an action reaches differs from the original cell by exactly one step in one coordinate |
| MazeGrid.KeepOpen | maze.py:120-124 | the filter keeps exactly the candidates whose cell is in bounds and not a wall, in their original order (strict action order is preserved), and never grows the list |
| MazeGrid.Candidates | maze.py:113-118 | the candidate list is exactly the four one-step moves, each action once, listed up, down, left, right |
| MazeGrid.Neighbors | maze.py:111-124 | a move is listed iff its cell is one step away by its action and is open; the actions are in up/down/left/right order; no cell is listed twice; at most four entries |
| MazeGrid.RankedMovesDistinct | maze.py:113-123 | moves from one cell with strictly ordered actions lead to pairwise different cells |
| MazeGrid.ClosedExcludesUnreachable | maze.py:140-143 | a set that contains the start and is closed under moves into open cells contains every reachable cell |
| MazeGrid.PathExtend | maze.py:171-173 | a path followed by one move into an open cell is again a path, ending at that cell |
| MazeGrid.AllCellsCount | maze.py:66-67 | the grid has exactly height × width cells, and every open cell is one of them |
| MazeText.CountChar | maze.py:59-62 | the number of times a character occurs in the text equals the number of positions at which it occurs, so the uniqueness checks test for exactly one position |
| MazeText.IsWallChar | maze.py:74-86 | a column past the end of its line is open, a space is open, and the positions of `A` and `B` are never walls |
| MazeText.MaxLen | maze.py:67 | the width is at least the length of every line and equals the length of some line |
| MazeText.ParseGrid | maze.py:58-87 | parsing succeeds iff `A` and `B` each occur exactly once. If `A` is not unique the error is StartNotUnique; otherwise, if `B` is not unique, GoalNotUnique. On success: height is the line count and width the longest line; a cell is a wall iff its column is inside its line and the character is not `A`, `B` or space; start and goal are the positions of `A` and `B`, open and distinct |
| Nodes.Reverse | maze.py:162-163 | the reversal has the same length and puts element i at position length − 1 − i |
| Nodes.Reconstruct | maze.py:154-163 | the walk from a node up its parent links, followed by the two reversals, yields the actions and cells of the chain from the root to the node, oldest first, root excluded |
| Nodes.ChainIsPath | maze.py:158-163 | for linked nodes, the reconstructed chain is a path from the start through open cells, each cell one action away from the previous one, and it ends at the node's state; it is empty only for the root |
| Frontiers.AnyHasState | maze.py:21 | the scan is true iff some node in the list has the given state |
| Frontiers.Frontier.constructor | maze.py:14-15 | a new frontier holds no nodes |
| Frontiers.Frontier.Add | maze.py:17-18 | the node is appended at the end and the earlier entries are unchanged |
| Frontiers.Frontier.ContainsState | maze.py:20-21 | true iff some held node has the given state |
| Frontiers.Frontier.Empty | maze.py:23-24 | true iff the node list is empty, equivalently iff no state is held |
| Frontiers.Frontier.Remove | maze.py:26-47 | an empty frontier gives EmptyFrontier and stays unchanged. Otherwise stack returns the last node and keeps the others in order; queue returns the first node and keeps the tail |
| Frontiers.StackRemovesLastAdded | maze.py:26-34 | after adding n1, n2, n3 to a new stack frontier, removal yields n3 |
| Frontiers.QueueRemovesFirstAdded | maze.py:40-47 | after adding n1, n2, n3 to a new queue frontier, removal yields n1 |
| Frontiers.RemoveFromNewFails | maze.py:28-29 | removing from a new frontier of either policy fails with EmptyFrontier |
| MazeSearch.Discover | maze.py:171-174 | the neighbour loop adds at most one node per move, and every added node is a child of the expanded node at a state that is not explored |
| MazeSearch.DiscoverChildren | maze.py:171-174 | every node the neighbour loop adds is a child of the expanded node, reached by one of its moves, at a state neither explored nor already on the frontier |
| MazeSearch.DiscoverDistinct | maze.py:172-174 | if the frontier holds each state at most once, it still does after the neighbour loop |
| MazeSearch.DiscoverCovers | maze.py:171-174 | after the neighbour loop every neighbour's cell is explored or on the frontier |
| MazeSearch.DiscoverUnfold | maze.py:171-174 | one turn of the neighbour loop, followed by the rest of the loop, adds exactly what the whole loop adds |
| MazeSearch.RemoveAt | maze.py:146 | taking one node out of a frontier without repeated states removes exactly that node's state and keeps the others in order |
| MazeSearch.StepClosed | maze.py:168-174 | after the node is marked explored and its neighbours are handled, every open neighbour of an explored cell is explored or on the frontier |
| MazeSearch.SearchInvInit | maze.py:129-137 | the search invariant holds for the root alone on the frontier and nothing explored |
| MazeSearch.SearchInvStep | maze.py:146-174 | an iteration that removes a non-goal node keeps the search invariant; the removed state was not explored before, and the explored set grows by exactly one cell of the grid |
| MazeSearch.FrontierChain | maze.py:146 | every frontier node's parent chain runs through earlier arena entries back to the root |
| MazeSearch.GoalChain | maze.py:151-164 | when the removed node is at the goal, its chain is a non-empty path from the start ending at the goal, and the explored cells plus the goal fit in the grid |
| MazeSearch.SearchInvExhausted | maze.py:140-143 | when the frontier is empty, the explored set is exactly the set of reachable cells and the goal is unreachable |
| MazeSearch.ExploredReachable | maze.py:168 | every explored cell is reachable from the start, along the parent chain of the node that explored it |
| MazeSearch.ExploredInGrid | maze.py:168 | explored cells are cells of the grid, so there are at most height × width of them |
| MazeSearch.Maze.constructor | maze.py:89 | a new maze over a parsed grid has no solution yet |
| MazeSearch.Maze.Expand | maze.py:170-174 | the frontier afterwards is the old frontier followed by a new child for each open neighbour, in neighbour order, whose state is neither on the frontier (including children added earlier in the loop) nor explored |
| MazeSearch.Maze.Solve | maze.py:127-174 | the result is a solution iff the goal is reachable. On success it is a path from the start to the goal, stored in `solution`; every explored cell is reachable, the goal is not explored and the removal count is the explored count plus one. Otherwise the error is NoSolution, `solution` is unchanged, the explored set is exactly the reachable cells and the removal count equals its size. Either way the removals number at most height × width |
| MazeScenario.SolveOpenSquare | maze.py:127-174 | an open 3 × 3 maze with `A` at (0, 0) and `B` at (2, 2) is solved, the path ends at (2, 2), and at most nine nodes are removed |
| MazeScenario.RejectTwoGoals | maze.py:59-62 | a text with one `A` and two `B`s is rejected with the goal-uniqueness error |

## Left out

- Reading the maze file (`maze.py:55-56`). `ParseGrid` takes the text already split into lines, as `str.splitlines` would split it. The line break characters contain no `A` or `B`, so counting per line equals counting the raw text.
- `Maze.print`, `output_image` (which draws with PIL) and the command-line entry point (`maze.py:92-239`). These are output and argument handling only.
- Exception messages. Each exception is an error variant instead.
- `Maze.__init__` as one step: it is split into `ParseGrid`, which can fail, and the `Maze` constructor, which takes a parsed grid, because a Dafny constructor cannot fail. The case where `max` gets no lines cannot arise: a text with exactly one `A` has at least one line.
- Python object references between nodes. A child holds the index of its parent in the arena of expanded nodes instead.
- MazeSearch.Maze.constructor: sets `numExplored` to 0 and `explored` to the empty set. In the source these attributes exist only once `solve` has run (`maze.py:129`, `maze.py:137`), and reading them earlier raises `AttributeError`. The model does not represent that error.
- MazeSearch.Maze.Solve: keeps the removal count and the explored set in local variables during the loop. It stores them in `numExplored` and `explored` when it returns. Intermediate values of the fields while `solve` runs are not modelled; nothing can observe them.
- MazeSearch.Maze.Solve: proves only the stack configuration that the source runs. A search over a queue frontier (breadth-first, shortest path) is not modelled, because `solve` never builds one.
