# Scotland Yard seeker, modelled in Dafny

`Scotland_yard` is a seeker bot for a turn-based hide-and-seek game played
on a grid. Every turn the match driver calls `get_action_from_state` with
three inputs: the board, the squares the seeker can see, and its legal
moves. The seeker answers with the square it moves to.

- **Chasing.** When the hider stands on a visible square, the seeker
  computes a shortest path to it by breadth-first search. It moves to the
  last cell of that path that is a legal move, or to the first cell of the
  path when none is.
- **Searching.** Otherwise it looks up, in its memory `coord_to_turn`, the
  turn at which each legal move was last swept. A move without an entry
  is written in as turn 0. The seeker moves to one of the moves with the
  lowest turn, picked at random. When no move is below 999, its own square
  is also a candidate. It then stamps every cell of a shortest path to that
  move, and its own square, with the current turn number.

The model has five modules:

- `Grid` (`grid.dfy`): cells, cell codes and the neighbour filter
  `_get_valid_neighbors`.
  - The filter removes elements from the list it is iterating over. Python's
    list iterator then skips the element after each removed one, and that
    element is returned without being tested.
  - `Sweep` models the loop exactly as written. `Kept` is a reference rule
    that does not mention the iterator. `NeighborsSweep` proves the two
    agree.
  - `BlockedNeighborsReturned` gives a board where a wall and an off-board
    cell come back as neighbours.
- `Search` (`search.dfy`): what the breadth-first search of
  `_get_shortest_path` promises, and the invariant of its loop.
  - The reasoning works over any neighbour graph.
  - `Layer(g, start, n)` is the reference definition of "within `n`
    steps". It is defined independently of the search loop.
- `Pathfinder` (`pathfinder.dfy`): the search loop, the reconstruction of
  the path and the whole `_get_shortest_path`, as methods.
- `Staleness` (`staleness.dfy`): the memory `coord_to_turn`, and pure
  descriptions of the scan in `_move_to_lrs_square` and of the stamping in
  `_update_mem`.
- `Seeker` (`seeker.dfy`): the class `ScotlandYard`, whose fields are those
  the source updates in place, and the methods that find the seeker and
  the hider.

Besides an index past the board at line 77, which the model excludes by a
precondition (see "## Left out"), the one exception the seeker raises on a
board is the `IndexError` of a chase whose path is empty. It becomes an `Err` result, and the fields are
left as the source leaves them when the exception escapes. The path
reconstruction's `KeyError` is modelled too (`TracePath`), but on a board it
never happens: a search for an unreachable target never ends (see
"## Findings").

## Model

| member | source | states |
|---|---|---|
| Grid.Blocked | scotland_yard.py:150-154 | A cell that passes the test lies on the board and is not a wall. |
| Grid.BlockedOnBoard | scotland_yard.py:150-154 | On a board, a cell fails the test iff it is off the board or holds code 3. |
| Grid.RemoveFirst | scotland_yard.py:155 | `list.remove` shortens the list by one when the cell is present, and leaves it unchanged otherwise. |
| Grid.RemoveFirstKeeps | scotland_yard.py:155 | `list.remove(x)` leaves the membership of every other cell unchanged. |
| Grid.RemoveFirstOnlyRemoves | scotland_yard.py:155 | `list.remove(x)` adds no cell. |
| Grid.Sweep | scotland_yard.py:149-155 | The loop exactly as written, with the iterator as an index. It never lengthens the list. |
| Grid.SweepFilters | scotland_yard.py:149-155 | The loop returns only cells of its input, and drops no cell that passes the test. |
| Grid.ValidNeighbors | scotland_yard.py:142-157 | Every returned cell is 4-adjacent to `loc`, and every adjacent cell that passes the test is returned. |
| Grid.TerrainOf | scotland_yard.py:150-154 | The terrain has the board's size, and a cell is a wall exactly when it is on the board and holds code 3. |
| Grid.RemoveFirstAt | scotland_yard.py:155 | `list.remove` of an element whose first occurrence is at index `i` drops exactly index `i`. |
| Grid.SweepIsKept | scotland_yard.py:149-155 | For distinct cells, the remove-while-iterating loop from index `i` keeps the prefix and applies the reference rule `Kept` to the rest. |
| Grid.SweepPastRemoved | scotland_yard.py:149-155 | After the removal at index `i`, the loop goes on from index `i + 1`: the cell that slid into slot `i` stays, and the rest follows the reference rule. |
| Grid.SweepRemoves | scotland_yard.py:149-155 | A blocked cell at the iterator's index is removed, and the cell after it is kept untested. |
| Grid.KeptIsSubsequence | scotland_yard.py:149-157 | The filter's result is an order-preserving subsequence of its input. |
| Grid.KeptMembership | scotland_yard.py:149-155 | Cell `j` is kept exactly when it passes the test or cell `j - 1` was removed. Cell 0 is kept exactly when it passes the test. |
| Grid.Directions | scotland_yard.py:143-148 | Up, down, left and right are four distinct cells, and they are exactly the cells 4-adjacent to `loc`. |
| Grid.NeighborsSweep | scotland_yard.py:142-157 | The source's loop over `[up, down, left, right]` returns exactly `ValidNeighbors`. |
| Grid.NeighborsShape | scotland_yard.py:142-157 | The neighbours are a subsequence of up, down, left, right, and each is 4-adjacent to `loc`. |
| Grid.NeighborsRule | scotland_yard.py:142-157 | `up` is returned iff it passes the test. Every passable on-board neighbour is returned. Every later cell is returned iff it passes the test or its predecessor was not returned. |
| Grid.BlockedNeighborsReturned | scotland_yard.py:149-155 | On a 2×1 board with a wall at `(1, 0)`, the neighbours of `(0, 0)` are the wall and the off-board cell `(0, 1)`. |
| Grid.Escape | scotland_yard.py:142-157 | Every cell has a returned neighbour in a lower row, or in the same row further left. |
| Grid.NeighborsStayBelowTop | scotland_yard.py:143-155 | From a cell on or below row 0, no returned neighbour lies above row 0, because `up` is always tested. |
| Grid.Open | scotland_yard.py:150-154 | The cells that pass the filter's test, and only those. |
| Grid.OpenNeighbors | scotland_yard.py:142-157 | The filter as its test intends it: exactly the on-board, non-wall cells among the four directions. |
| Grid.GetValidNeighbors | scotland_yard.py:142-157 | The method returns `ValidNeighbors` of the board's terrain: at most four cells, each 4-adjacent to `loc`. |
| Search.LayerStep | scotland_yard.py:130-131 | A neighbour of a cell within `n` steps is within `n + 1` steps. |
| Search.LayerPredecessor | scotland_yard.py:130-131 | A cell first reached at step `n` is a neighbour of a cell within `n - 1` steps. |
| Search.LayerMonotone | scotland_yard.py:120-131 | The layers grow with `n`. |
| Search.LayerStable | scotland_yard.py:120-131 | Once the cells within `d` steps have no neighbour outside them, no later layer adds a cell. |
| Search.WalkSnoc | scotland_yard.py:130-131 | A walk extended by a neighbour of its end is a walk to that neighbour. |
| Search.WalkInit | scotland_yard.py:135-137 | A walk without its last cell is a walk, and the last cell neighbours its end. |
| Search.WalkInLayer | scotland_yard.py:133-140 | A walk of `n` steps ends within `n` steps. |
| Search.LayerHasWalk | scotland_yard.py:120-131 | Every cell within `n` steps ends a walk of at most `n` steps. |
| Search.ReachableIffWalk | scotland_yard.py:111-140 | Reachability by layers holds iff some walk from `start` ends at `stop`. |
| Search.ShortestIsMinimal | scotland_yard.py:111-140 | No walk from `start` to `stop` is shorter than a shortest path. |
| Search.NeverClosed | scotland_yard.py:120-131 | Under the source's filter, no non-empty set of cells is closed under neighbours. |
| Search.TerminatesIffReachable | scotland_yard.py:120-131 | Under the source's filter, the search ends iff `stop` is reachable. |
| Search.LayerBelowTop | scotland_yard.py:120-131 | From a start on or below row 0, the search never reaches a cell above row 0. |
| Search.AboveBoardUnreachable | scotland_yard.py:111-131 | A target above the board is unreachable from a cell on it, and its search never ends. |
| Search.CorneredStep | scotland_yard.py:142-157 | On the two-by-two board with walls at `(0, 1)` and `(1, 0)`, the filter leads from `(1, 1)`, the rows below the board and row 1 right of the board only back into those cells. |
| Search.CorneredLayer | scotland_yard.py:120-131 | On that board, every cell the search from `(1, 1)` reaches is among those cells. |
| Search.OnBoardUnreachable | scotland_yard.py:111-131 | On the board `[[0, 3], [3, 1]]`, the square `(0, 0)` is unreachable from the seeker at `(1, 1)`, and a search for it never ends. |
| Search.OpenLayerBounded | scotland_yard.py:120-131 | Under the intended filter, every cell the search reaches is on the board or is `start`. |
| Search.LayerGrows | scotland_yard.py:130-131 | A layer that is not closed is followed by a strictly larger one. |
| Search.OpenSearchEnds | scotland_yard.py:111-131 | Under the intended filter, every search ends: an open layer grows by a cell, the layers stay on the board, so within as many steps as the board has cells some layer is closed. |
| Search.TreeReached | scotland_yard.py:125 | A cell recorded in the parent map lies within its level's number of steps. |
| Search.TreeParent | scotland_yard.py:125 | A recorded cell's parent is a recorded cell one level nearer, of which it is a neighbour. Only `start` has no parent. |
| Search.NotNearer | scotland_yard.py:120-131 | A cell outside layer `lv - 1` is outside every nearer layer. |
| Search.Closure | scotland_yard.py:120-131 | While every queued level is at least `f`, every cell fewer than `f` steps away has been visited at a level no higher than its distance. |
| Search.PopQueue | scotland_yard.py:121 | `q.pop()` takes the lowest level in the deque, and the rest of the deque keeps its levels. |
| Search.PopFrontier | scotland_yard.py:123-124 | Popping an already visited cell leaves every unvisited neighbour of a visited cell queued. |
| Search.PopSkip | scotland_yard.py:121-124 | The `continue` on an already visited cell keeps the loop invariant. |
| Search.TreeAdd | scotland_yard.py:125 | Recording a new cell under a recorded parent keeps the parent map a tree of levels. |
| Search.VisitLevel | scotland_yard.py:121-125 | The first time a cell is popped, it is exactly its queued level away from `start`. |
| Search.VisitDistance | scotland_yard.py:121-125 | That cell also lies inside the search bound `d`. |
| Search.VisitProgress | scotland_yard.py:125 | Recording a new cell of layer `d` shrinks the set of unvisited cells of layer `d`. This makes the loop terminate. |
| Search.Exhausted | scotland_yard.py:120-131 | When the deque runs empty without visiting `stop`, `stop` is unreachable. |
| Search.Visit | scotland_yard.py:121-125 | Recording the first visit keeps the tree, the settled levels and the bound, at the cell's exact distance. |
| Search.ExpandQueue | scotland_yard.py:130-131 | The neighbours pushed with `appendleft` are queued one level further on. |
| Search.ExpandFrontier | scotland_yard.py:130-131 | After the push, every unvisited neighbour of a visited cell is queued. |
| Search.Expand | scotland_yard.py:121-131 | One full expansion step keeps the loop invariant. |
| Search.Found | scotland_yard.py:125-128 | The `break` at `stop` records `stop` at its exact distance. |
| Search.SealedBegin | scotland_yard.py:116-117 | The search starts with `start` alone on the deque and an empty parent map. |
| Search.SealedSkip | scotland_yard.py:121-124 | Popping an already recorded cell and skipping it keeps the loop invariant. |
| Search.SealedFound | scotland_yard.py:121-128 | Recording `stop` on its first pop and leaving the loop leaves a parent tree in which `stop` is recorded at its distance. |
| Search.SealedExpand | scotland_yard.py:121-131 | Recording any other new cell and pushing its neighbours keeps the loop invariant, and leaves fewer cells of the bound layer unrecorded. |
| Search.SealedExhausted | scotland_yard.py:120-131 | When the loop ends on an empty deque, `stop` is neither recorded nor reachable. |
| Pathfinder.PushAll | scotland_yard.py:130-131 | The `appendleft` loop puts the neighbours at the left end of the deque in reverse order, with the rest unchanged. |
| Pathfinder.Explore | scotland_yard.py:116-131 | The loop builds a parent tree containing `start`. `stop` is recorded iff it is reachable, and then at a level equal to its distance. |
| Pathfinder.TracePath | scotland_yard.py:133-140 | For any parent tree, a `KeyError` is raised iff `stop` is not recorded. Otherwise the result is a walk from `start` (excluded) to `stop`, of length `stop`'s level. |
| Pathfinder.ShortestPath | scotland_yard.py:111-140 | For a reachable `stop` (exactly the searches that end on a board), the result is a shortest neighbour path, empty iff `start == stop`. No `KeyError` is raised. |
| Pathfinder.BoardGraph | scotland_yard.py:142-157 | The board's own neighbour graph is one the path search accepts. |
| Staleness.TurnOf | scotland_yard.py:88-91 | A cell without an entry counts as turn 0. No cell counts as later than a bound on every recorded turn. |
| Staleness.Seed | scotland_yard.py:87-89 | Every legal move gets an entry. New entries are 0, and existing entries keep their turn. |
| Staleness.Lowest | scotland_yard.py:85-93 | `best` ends at most 999, at most every move's turn, and equal to some move's turn unless it is still 999. |
| Staleness.Ties | scotland_yard.py:94-95 | The moves recorded at turn `v`, in order. |
| Staleness.Candidates | scotland_yard.py:85-95 | `best_moves` is non-empty. It holds exactly the moves of least turn, plus the current square when that least turn is 999. |
| Staleness.CandidateChoice | scotland_yard.py:99 | The random pick is a legal move of least turn, or the current square. It is the current square only if no move is below 999. |
| Staleness.TiesNone | scotland_yard.py:94-95 | If no move is recorded at `v`, there are no ties at `v`. |
| Staleness.StaysWhenNothingOlder | scotland_yard.py:85-99 | When no move is recorded at or below 999, the only candidate is the current square. |
| Staleness.TiesBelowLowest | scotland_yard.py:91-93 | No move is recorded below the least turn. |
| Staleness.SeedStep | scotland_yard.py:88-89 | Seeding one more move adds an entry at 0 exactly when it has none. |
| Staleness.ScanStep | scotland_yard.py:91-95 | One comparison step: `<` restarts `best_moves` with the move, `==` appends it, and `>` leaves it unchanged. |
| Staleness.ScanAdvance | scotland_yard.py:87-95 | One pass of the loop body keeps the memory, `best` and `best_moves` equal to `Seed`, `Lowest` and `Candidates` of the prefix. |
| Staleness.Stamp | scotland_yard.py:106-109 | The stamped cells get turn `t`, and every other entry is kept. |
| Staleness.StampAfterSeed | scotland_yard.py:87-109 | Seeding and then stamping a path and the current square records every move and every old entry. It sets exactly those cells to `t` and leaves the rest as they were. |
| Staleness.SeedStampMonotone | scotland_yard.py:87-109 | Seeding and stamping at a turn no earlier than any recorded turn moves no entry back, and records nothing later than `t`. |
| Seeker.FirstSelfFrom | scotland_yard.py:67-72 | A found cell is on the board, holds 1, and is not before `(i, j)` in row-major order. |
| Seeker.FirstSelfFromIsFirst | scotland_yard.py:67-72 | No cell between `(i, j)` and the found cell (or the end of the board) holds 1. |
| Seeker.FirstSelf | scotland_yard.py:67-72 | The result is the first cell holding 1 in row-major order, or none iff no cell holds 1. |
| Seeker.Here | scotland_yard.py:53-54 | A known location is kept. Otherwise the seeker stands on the first cell holding 1, which exists iff some cell holds 1. |
| Seeker.FindSelf | scotland_yard.py:67-72 | The nested loop returns `FirstSelf`. |
| Seeker.HiderLoc | scotland_yard.py:74-80 | None iff no visible square holds `PLAYER_2`. Otherwise the first visible square that holds it. |
| Seeker.FindHider | scotland_yard.py:74-80 | The loop returns `HiderLoc`. |
| Seeker.ChaseChoice | scotland_yard.py:161-165 | The chase rule's cell lies on the path. |
| Seeker.ChaseChoiceUnique | scotland_yard.py:161-165 | The chase rule names at most one cell for a path and a list of legal moves. |
| Seeker.ChaseChoiceLegal | scotland_yard.py:161-165 | The chase pick lies on the path. It is a legal move whenever the path holds one, and otherwise it is `path[0]`. |
| Seeker.SearchOutcomeMonotone | scotland_yard.py:87-109 | A search turn moves no recorded turn back, and records none beyond the current turn. |
| Seeker.SearchOutcomeRecords | scotland_yard.py:87-109 | After a search turn, every move and every old entry is recorded. The turn stamps the current square and a shortest path to the pick, and changes nothing else. |
| Seeker.Scan | scotland_yard.py:85-95 | The loop leaves the memory as `Seed` and `best_moves` as `Candidates`. |
| Seeker.ChaseOutcomeOk | scotland_yard.py:159-165 | A chase turn yields a move iff the hider stands on another square. |
| Seeker.ScotlandYard.constructor | scotland_yard.py:33-40 | The memory is empty, there is no location, the turn is 0, the state is searching and the previous state is chasing. |
| Seeker.ScotlandYard.UpdateMem | scotland_yard.py:104-109 | A shortest path to the target, then the current square, are stamped with the turn. Every other entry and every other field is kept. |
| Seeker.ScotlandYard.ScanMoves | scotland_yard.py:85-95 | The memory becomes `Seed` of the old memory, and the result is `Candidates`. |
| Seeker.ScotlandYard.MoveToLrsSquare | scotland_yard.py:83-102 | The turn ends in `SearchOutcome`: a least-recently-seen candidate, with every legal move seeded and a shortest path to the candidate swept. |
| Seeker.ScotlandYard.MoveTowardsHider | scotland_yard.py:159-165 | The turn ends in `ChaseOutcome`: the chase rule's cell on a shortest path, or `IndexError` if the hider stands on the seeker's own square. |
| Seeker.ScotlandYard.BeginTurn | scotland_yard.py:46-54 | The previous state is saved and the turn counter incremented. The location is found on the first turn. |
| Seeker.ScotlandYard.GetActionFromState | scotland_yard.py:42-65 | The state is chasing iff the hider is visible. The move becomes `cur_loc`. The memory never moves back and stays no later than the turn counter. Searching always yields a move, with `SearchOutcome`; chasing gives `ChaseOutcome` with the memory unchanged. |

## Left out

- `hider.py` and `visualize.py` are not part of this model. They hold the
  opponent bot and the match driver with its rendering, and the seeker does
  not depend on them.
- The base class `Seeker` and `Board` come from the host library
  `cyberchase`, which is not part of this model. Only `Board.PLAYER_2` is
  used; it is a constant whose value is left open, except that it is
  neither 1 nor 3.
- `random.choice`: the pick is any element of `best_moves`. The
  distribution is not modelled.
- The class docstring (scotland_yard.py:16-17) says that turn numbers are
  updated while chasing. `_move_towards_hider` (lines 159-165) never calls
  `_update_mem`, and the model follows the code: a chase turn leaves
  `coord_to_turn` unchanged.
- The fields `board_state`, `visible_squares`, `valid_moves` and
  `hider_loc` are stored on the object by the source, but the model passes
  them as parameters and locals. They are overwritten every turn before
  they are read.
- Seeker.ScotlandYard.GetActionFromState: requires every visible square to
  be on the board. A negative numpy index would wrap around, and an index
  past the board raises `IndexError` at line 77; the model excludes both.
- Seeker.ScotlandYard.GetActionFromState: requires the seeker to have a
  square. When no cell holds 1 on the first turn, the source goes on with
  `cur_loc = None`. That case is not modelled:
  - If `best_moves` is `[None]` (no legal moves, or every move recorded
    after turn 999), the search from `None` to `None` stops at once. The
    turn records `coord_to_turn[None]` and returns `None` without error.
  - Otherwise the source raises `TypeError` as soon as the search must
    expand `None`.
- Pathfinder.ShortestPath: requires `stop` to be reachable. On a board that
  is exactly when the source's search ends (`TerminatesIffReachable`).
  For an unreachable `stop` the source loops for ever, which a method
  cannot return from. So `MoveToLrsSquare`, `MoveTowardsHider`, `UpdateMem`
  and `GetActionFromState` require their targets to be reachable.
- Pathfinder.ShortestPath: promises some shortest path, not which of several
  equally short paths the deque order selects. The methods compute one
  path deterministically, but the contracts (`SearchOutcome`,
  `ChaseOutcome`, `UpdateMem`) only name "a shortest path".
- The deque is a sequence whose right end is `pop`'s end. The search's level
  bookkeeping is ghost state, and so is the neighbour graph `g` that the
  methods take alongside the board.
- Python integers are unbounded, and so are the model's turn numbers and
  coordinates. No wrap-around exists to model.

## Findings

| source | as written | input that shows it | evidently intended | confidence | as-written member | corrected member |
|---|---|---|---|---|---|---|
| scotland_yard.py:149-155 | The filter removes cells from the list it iterates over, so the cell after a removed one is returned untested. Every cell then has a returned neighbour below it or to its left, no set of cells is closed, and a search for an unreachable target never ends. | On the board `[[0, 3], [3, 1]]`, a search from the seeker at `(1, 1)` for `(0, 0)`: the target is unreachable and the deque never runs empty (`OnBoardUnreachable`), so a chase toward a hider at `(0, 0)` never returns. On any board, the same holds for a target above it (`AboveBoardUnreachable`). On a 2×1 board with a wall at `(1, 0)`, the wall and the off-board `(0, 1)` are both returned as neighbours of `(0, 0)` (`BlockedNeighborsReturned`). | Return exactly the on-board, non-wall neighbours (`OpenNeighbors`). Every search then ends, and an unreachable target reaches the reconstruction's `KeyError` (`Search.Exhausted`, `TracePath`). | not executed | Search.TerminatesIffReachable | Search.OpenSearchEnds |

The seeker is modelled on the filter as written: its methods call
`GetValidNeighbors`, and the termination requirement above comes from it.
The corrected filter is modelled beside it, with termination proved for
every search over its neighbour graph (`OpenSearchEnds`, `OpenGraphIs`).
