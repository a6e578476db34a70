# Maze-Solver A* in Dafny

A Dafny model of the search engine of `pathfinding.py` (Maze-Solver), with proofs about it. The engine has these parts:

- The cells of a square lattice (`Node`). Each holds a state tag and a cached list of neighbours.
- `h`, the Manhattan heuristic.
- `make_grid`, which builds the lattice.
- `get_clicked_pos`, which maps a pixel to a cell.
- `update_neighbors`, the 4-connected neighbour computation that skips barriers.
- `algorithm`, the A* search.
- `reconstruct_path`, which walks the predecessor map back from the goal.

There are three modules:

- `Nodes` (`nodes.dfy`): the `Color` tag, `H`, and the class `Node`. The class has:
  - `const` fields for the attributes the source never reassigns;
  - `var` fields `color` and `neighbors`;
  - the `make_*`/`delete` setters as methods and the `is_*` tests as predicates;
  - `UpdateNeighbors`, proved against the specification function `NeighborsOf`.
- `Grid` (`grid.dfy`): `MakeGrid`, `GetClickedPos`, and the refresh loop that calls `update_neighbors` on every cell before a search (`UpdateAllNeighbors`).
- `Search` (`search.dfy`): the A* run.
  - The dictionaries, the open set, its membership set and the counter are one value of the datatype `State`.
  - Each step of the source is a function on `State`: `Pop`, `Relax`, `RelaxAll`.
  - The methods (`Algorithm`, `ExpandNeighbors`, `ReconstructPath`, …) run the loops of the source. They carry those states and recolour the real `Node` objects as the source does.
  - The loop invariant `SearchInv` is proved to hold before the loop and to be kept by every pop and every relaxation.
  - `SearchFromScratch` is what pressing Space does: the refresh, then `Algorithm`. It returns the found walk forwards from `start`.

Where the code does something surprising, the model follows it:

- The Up and Left neighbour tests use `row > 1` and `col > 1`, as at `pathfinding.py:69` and `pathfinding.py:75`. This is modelled as written: adjacency is not symmetric at row 0 and column 0 (`Nodes.AdjacencyAsymmetric`).
- `get_pos` is defined twice. The second definition wins, so `GetPos` returns `(col, row)`.
- `Nodes.HOfNodes` shows that this does not change any heuristic value.
- `reconstruct_path` colours every node it reaches Path. That includes `start`, whose predecessor lookup is the one that misses. `end` is coloured End afterwards.
- The first queue entry is `(0, 0, start)`, with f = 0 rather than `h(start, end)`, as at `pathfinding.py:125`.
- There is no check for missing or equal endpoints: `start == end` is allowed, and the first pop returns True.
- A node is never queued twice at once (`QueueInv`), so the queue holds no duplicate entries.
- A queued node whose score improves is not pushed again (`pathfinding.py:153`). Its entry keeps the f it was queued with, and `get()` orders it by that value, which can lag behind `f_score`. The model does the same (`Enqueue`).

A missing key in `g` or `f` stands for the `float('inf')` default. The score comparison `temp_g_score < g_score[neighbor]` becomes `Better`, in which a missing score loses to every number.

## Model

| member | source | states |
|---|---|---|
| Nodes.H | pathfinding.py:78-81 | the Manhattan distance is a natural number and is 0 exactly when the two points are equal |
| Nodes.HSymmetric | pathfinding.py:78-81 | the distance does not depend on argument order |
| Nodes.HConsistent | pathfinding.py:78-81 | across a unit step the distance to any goal changes by at most one |
| Nodes.HSwapInvariant | pathfinding.py:78-81 | swapping the axes of both points leaves the distance unchanged |
| Nodes.HOfNodes | pathfinding.py:31-34 | with the active `(col, row)` accessor the heuristic equals the one computed in `(row, col)` order |
| Nodes.FloorDiv | pathfinding.py:85 | Python's `//`: the quotient is the floor of the exact quotient, for either sign of the divisor |
| Nodes.Node.constructor | pathfinding.py:21-29 | row, column, width and total are stored; x and y are row and column times the width; colour Empty; no neighbours |
| Nodes.Node.GetPos | pathfinding.py:31-34 | the later of the two definitions wins: the position is (column, row); `Nodes.HOfNodes` shows the heuristic is the same as in (row, column) order |
| Nodes.Node.IsClosed | pathfinding.py:35-36 | the cell is Closed; `Nodes.StateTestsExclusive` gives at most one test true per cell |
| Nodes.Node.IsOpen | pathfinding.py:37-38 | the cell is Open; exclusive with the other tests by `Nodes.StateTestsExclusive` |
| Nodes.Node.IsBarrier | pathfinding.py:39-40 | the cell is a Barrier; exclusive with the other tests by `Nodes.StateTestsExclusive`; the neighbour lists skip exactly these cells (`Nodes.NeighborsSound`, `Nodes.NeighborsComplete`) |
| Nodes.Node.IsStart | pathfinding.py:41-42 | the cell is the Start; exclusive with the other tests by `Nodes.StateTestsExclusive` |
| Nodes.Node.IsEnd | pathfinding.py:43-44 | the cell is the End; exclusive with the other tests by `Nodes.StateTestsExclusive` |
| Nodes.Node.IsEmpty | pathfinding.py:45-46 | the cell is Empty; exclusive with the other tests by `Nodes.StateTestsExclusive` |
| Nodes.Node.MakeClosed | pathfinding.py:47-48 | the colour becomes Closed and `is_closed` holds |
| Nodes.Node.MakeOpen | pathfinding.py:49-50 | the colour becomes Open and `is_open` holds |
| Nodes.Node.MakeBarrier | pathfinding.py:51-52 | the colour becomes Barrier and `is_barrier` holds |
| Nodes.Node.MakeStart | pathfinding.py:53-54 | the colour becomes Start and `is_start` holds |
| Nodes.Node.MakeEnd | pathfinding.py:55-56 | the colour becomes End and `is_end` holds |
| Nodes.Node.MakePath | pathfinding.py:57-58 | the colour becomes Path, and none of the six state tests holds |
| Nodes.Node.Delete | pathfinding.py:59-60 | the colour becomes Empty and `is_empty` holds |
| Nodes.StateTestsExclusive | pathfinding.py:35-46 | every cell is in exactly one state: at most one test holds, and Path is the only colour with no test |
| Nodes.Node.UpdateNeighbors | pathfinding.py:63-76 | the new list is the neighbour list of the cell's position under the current colours; recomputing an up-to-date list leaves it unchanged |
| Nodes.Node.CollectNeighbors | pathfinding.py:64-76 | the four guarded appends, in the order Down, Up, Right, Left, build exactly that list |
| Nodes.NeighborsOf | pathfinding.py:63-76 | a neighbour list has at most four entries |
| Nodes.NeighborsAgree | pathfinding.py:63-76 | the list read from the cells' colours equals the list built from a faithful record of those colours |
| Nodes.NeighborsBarriersOnly | pathfinding.py:66-76 | two colour records that agree on which cells are Barriers give the same neighbour list |
| Nodes.CellListCurrent | pathfinding.py:63-76 | a list built under colours that mark the same Barriers as now is the list `update_neighbors` builds now, so one refresh computes it again unchanged |
| Nodes.NeighborsSound | pathfinding.py:66-76 | every listed neighbour is a grid cell at its own position, is not a Barrier, and is adjacent under the bounds `update_neighbors` applies |
| Nodes.NeighborsComplete | pathfinding.py:66-76 | every non-barrier cell adjacent under the bounds `update_neighbors` applies is listed |
| Nodes.NeighborsOrdered | pathfinding.py:65-76 | the listed neighbours appear in strictly increasing direction rank (Down, Up, Right, Left), so there are no repeats |
| Nodes.AdjacentCharacterization | pathfinding.py:66-75 | the adjacency `update_neighbors` applies is a unit step inside the lattice, except a step from index 1 to index 0 on either axis |
| Nodes.AdjacencyAsymmetric | pathfinding.py:69-75 | the `> 1` bounds make (0,0)→(1,0) and (0,0)→(0,1) edges but not their reverses |
| Nodes.AdjacentSymmetricInterior | pathfinding.py:66-75 | adjacency is symmetric between cells outside row 0 and column 0 |
| Nodes.ComputedNeighbors | pathfinding.py:63-76 | with up-to-date lists, each neighbour is a non-barrier grid cell at Manhattan distance 1 |
| Nodes.ComputedUnitSteps | pathfinding.py:63-76 | with up-to-date lists every neighbour of a grid cell is a grid cell at Manhattan distance 1, a fact about the lists alone |
| Nodes.ListsAvoidComputed | pathfinding.py:66-76 | with up-to-date lists no listed neighbour is a cell that a record of the current colours marks as a Barrier; stated on the record, this still holds after the run recolours cells |
| Grid.MakeGrid | pathfinding.py:83-91 | `rows` rows of `rows` fresh cells; cell (r, c) has row r, column c, side `width // rows`, x = r·side, y = c·side, colour Empty and no neighbours; a negative `rows` gives no rows |
| Grid.GetClickedPos | pathfinding.py:109-114 | for a positive cell side the pixel lies inside the cell it is mapped to, and a pixel inside the drawn lattice maps to indices in [0, rows) |
| Grid.CellIndexInRange | pathfinding.py:112-113 | the floor quotient of a pixel inside the lattice is a valid index |
| Grid.UpdateAllNeighbors | pathfinding.py:207-210 | after the refresh every cell's list is up to date and no colour has changed; the refresh changes no list when the lists were built under colours `built` that mark the same Barriers as now, so lists stay valid after a run has coloured cells Open, Closed or Path |
| Grid.AgreeEverywhere | pathfinding.py:207-210 | under a faithful record of the colours, the recorded and the live neighbour lists agree on every cell |
| Grid.RefreshAll | pathfinding.py:208-210 | the outer loop leaves every cell with the list computed from the recorded colours |
| Grid.UpdateRowNeighbors | pathfinding.py:209-210 | the inner loop refreshes every cell of one row and leaves the other rows unchanged |
| Grid.UpdateCellNeighbors | pathfinding.py:210 | one call refreshes one cell to the list computed from the recorded colours |
| Search.MinIndex | pathfinding.py:138 | `open_set.get()` takes an entry that is least in (f, count) order among all queued entries |
| Search.MinUnique | pathfinding.py:138 | with distinct counts the least entry is unique, so the pop order is determined |
| Search.RemoveAt | pathfinding.py:138 | removing an entry keeps every other entry in order, and the multiset loses exactly that entry |
| Search.QueueNodesAppend | pathfinding.py:155-156 | a put adds exactly its node to the set of queued nodes |
| Search.QueueNodesRemove | pathfinding.py:138-139 | with distinct nodes, removing an entry removes exactly its node from the set of queued nodes |
| Search.InitialState | pathfinding.py:123-132 | the variables before the loop: the single entry `(0, 0, start)`, `start` in the hash, no predecessors, g[start] = 0, f[start] = h(start, end), count 0; `Search.InitialInv` shows the loop invariant holds of it |
| Search.InitialInv | pathfinding.py:123-132 | the loop invariant (queue, scores, links, exploration) holds for the state the source builds before its loop: the single entry `(0, 0, start)`, g[start] = 0, f[start] = h(start, end), no predecessors |
| Search.Better | pathfinding.py:147-149 | the test `temp_g_score < g_score[neighbor]`, where a missing score is infinity and loses to every number; `Search.RelaxQueued` and `Search.RelaxScores` state its effect |
| Search.Improve | pathfinding.py:150-152 | the three dictionary updates: `current` becomes the predecessor, g the tentative score, f that plus h to `end`; `Search.RelaxNewLink`, `Search.RelaxChainOK` and `Search.RelaxFScores` state what they keep |
| Search.Push | pathfinding.py:154-156 | the count goes up by one, and the entry `(f, count, neighbor)` is put and its node added to the hash; `Search.PushQueueInv` and `Search.QueueNodesAppend` state what it keeps |
| Search.Enqueue | pathfinding.py:153-156 | a node already in the hash is not pushed again, so its entry keeps its old f; `Search.RelaxQueued` states exactly when a node is newly queued |
| Search.Relax | pathfinding.py:147-157 | relaxing one edge keeps the score of `current` |
| Search.RelaxAll | pathfinding.py:146-157 | the whole inner loop keeps the score of `current` |
| Search.RelaxQueued | pathfinding.py:153-156 | relaxing queues at most `neighbor`, and queues it exactly when it is unqueued and strictly improved |
| Search.RelaxAllQueued | pathfinding.py:146-157 | the inner loop only adds to the open set, and only listed neighbours |
| Search.RelaxScores | pathfinding.py:147-151 | relaxing scores `neighbor`, scores nothing else, changes no other score and never raises a score |
| Search.RelaxNewLink | pathfinding.py:149-151 | a newly set predecessor link goes from `neighbor` to `current`, and then g[neighbor] = g[current] + 1 |
| Search.PushQueueInv | pathfinding.py:154-156 | pushing an unqueued node keeps the hash equal to the queued nodes, and keeps nodes and counts distinct |
| Search.RelaxQueueInv | pathfinding.py:149-156 | relaxing keeps the queue invariant |
| Search.RelaxChainOK | pathfinding.py:150-151 | after relaxing, every predecessor still has a strictly smaller g score |
| Search.RelaxFScores | pathfinding.py:151-152 | after relaxing, every f score is still g plus the heuristic to `end` |
| Search.RelaxScoreInv | pathfinding.py:147-152 | relaxing keeps the score invariant: `start` stays at 0 with no predecessor, every other scored node has one, predecessors are cheaper, f = g + h |
| Search.RelaxLinksInv | pathfinding.py:146-150 | predecessor links still follow neighbour-list edges |
| Search.RelaxExploredInv | pathfinding.py:146-156 | expanded nodes keep all their neighbours scored, and a scored `end` stays queued |
| Search.RelaxProgress | pathfinding.py:147-156 | relaxing one edge never raises the termination measure: it scores a new node, or lowers a score by more than the queue grows |
| Search.RelaxPreserves | pathfinding.py:147-157 | relaxing one edge of `current` keeps the whole loop invariant |
| Search.RelaxAllPreserves | pathfinding.py:146-157 | relaxing every listed edge keeps the whole loop invariant |
| Search.RelaxAllScored | pathfinding.py:146-157 | over the inner loop scores only decrease, every listed neighbour gets a score, and neither `current` nor `start` (score 0) is queued again |
| Search.RelaxAllProgress | pathfinding.py:146-157 | the inner loop never raises the termination measure and scores only graph nodes |
| Search.RelaxAllNewQueued | pathfinding.py:149-156 | every node the inner loop scores for the first time is queued when the loop ends |
| Search.ExploredRelease | pathfinding.py:146-157 | once all neighbours of `current` are scored it need no longer be pending |
| Search.ExpandPreserves | pathfinding.py:146-157 | after the inner loop the invariant holds with nothing pending, `current` is unqueued, `start` is not re-queued, and the measure has not grown |
| Search.Top | pathfinding.py:138 | the `[2]` of `open_set.get()`: the node of the entry `Search.MinIndex` picks, the least in (f, count) order |
| Search.Pop | pathfinding.py:138-139 | a pop removes one entry and changes neither scores nor predecessors |
| Search.PopPreserves | pathfinding.py:138-139 | popping keeps the queue, score and link invariants; the popped node is scored, unqueued and pending; `end` stays queued unless it was popped |
| Search.PopColors | pathfinding.py:138-139 | after a pop every queued node other than `start` is still coloured Open |
| Search.InitialClosed | pathfinding.py:123-132 | before the loop every cell other than `start` is unscored and has its colour from before the run |
| Search.PopClosed | pathfinding.py:138-139 | a pop leaves the popped node pending and every other off-queue cell as `ClosedInv` describes it |
| Search.ClosedStep | pathfinding.py:146-161 | after an expansion every off-queue cell other than `start` is Closed if scored and has its colour from before the run if not, with nothing pending |
| Search.LoopDecreases | pathfinding.py:134-161 | a pop followed by an expansion that makes progress lowers the loop measure (unscored cells, then scores plus queue length) lexicographically, so the loop terminates |
| Search.ExpandNeighbors | pathfinding.py:146-157 | the inner loop computes `RelaxAll`; it colours Open exactly the newly queued neighbours and leaves every other cell's colour alone |
| Search.RelaxNeighbor | pathfinding.py:147-157 | one pass computes `Relax` and colours the neighbour Open exactly when it was newly queued |
| Search.ExpandAndClose | pathfinding.py:146-161 | one expansion relaxes the neighbour list of `current` (`RelaxAll`) and restores the loop invariant with nothing pending, without raising the measure; afterwards every off-queue cell other than `start` is Closed if scored and has its colour from before the run if not (`ClosedInv`); exactly the newly queued neighbours become Open, `current` becomes Closed unless it is `start`, and every other cell keeps its colour |
| Search.RelaxAndClose | pathfinding.py:146-161 | one expansion computes `RelaxAll`; exactly the newly queued neighbours are coloured Open; `current` is coloured Closed unless it is `start`; every other cell keeps its colour |
| Search.Chain | pathfinding.py:116-119 | the walk back from a node is empty exactly when the node has no predecessor |
| Search.ChainFacts | pathfinding.py:116-119 | the walk is at most g[n] long and strictly decreases in g; each step follows the map; it ends at a node without predecessor |
| Search.ChainShort | pathfinding.py:116-119 | the walk from a node is short, never returns to the node, and consists of predecessors |
| Search.ChainEndsAtStart | pathfinding.py:116-119 | when every scored node but `start` has a predecessor, the walk from any other node ends at `start` |
| Search.ChainLinked | pathfinding.py:116-119 | each node of the walk is in the neighbour list of the node after it (reversed, each is a neighbour of the one before) |
| Search.BackLinkedReversed | pathfinding.py:116-119 | a sequence is back-linked (each node is a neighbour of the next) exactly when its reverse is a walk along neighbour lists |
| Search.Reverse | pathfinding.py:116-119 | the reverse has the same length and holds the nodes in the opposite order |
| Search.ReverseMembers | pathfinding.py:116-119 | the reverse has exactly the members of the sequence |
| Search.ReversedWalk | pathfinding.py:116-119 | a back-linked sequence ending in a set of unit-step cells lies in the set, and read backwards it is a walk of Manhattan unit steps |
| Search.ReversedColors | pathfinding.py:116-119 | read backwards, a sequence coloured Path after its first node is coloured Path before its last, as `reconstruct_path` leaves the walk |
| Search.FoundWalk | pathfinding.py:141-143 | the recorded walk read forwards goes from `start` to `end` through grid cells by unit steps, with every node before `end` coloured Path; it holds exactly `end` and the nodes of the chain, and none after the first was a Barrier under the recorded colours |
| Search.WalkAvoids | pathfinding.py:66-76 | a walk along lists that skip the Barriers of a colour record meets no such Barrier after its first node |
| Search.ReconstructPath | pathfinding.py:116-120 | every node of the walk from `current` is coloured Path; every other predecessor keeps its colour |
| Search.ColorChain | pathfinding.py:142-143 | the walk from `end` is coloured Path and `end` is coloured End; every other cell keeps its colour |
| Search.PredecessorsLinked | pathfinding.py:150 | every predecessor is a grid cell, and every node is in its predecessor's neighbour list |
| Search.FinishPath | pathfinding.py:141-144 | on finding `end`: it is coloured End; its walk is coloured Path, ends at `start`, follows neighbour links and is at most g[end] long; every other cell keeps its colour |
| Search.Snapshot | pathfinding.py:146 | the neighbour lists read during a run form a closed graph |
| Search.WalkStaysInside | pathfinding.py:146 | a walk along neighbour lists starting in a closed set stays in it |
| Search.Exhausted | pathfinding.py:134-162 | when the queue runs empty `end` has no score, every node of a walk along neighbour lists from `start` has a score, and so no such walk reaches `end` |
| Search.ExhaustedClosed | pathfinding.py:134-162 | when the queue runs empty every cell other than `start` is Closed if it has a score and has its colour from before the run if not |
| Search.RefreshForSearch | pathfinding.py:207-210 | after the refresh every cell's list is the one `update_neighbors` computes from the recorded colours, so every entry is a unit step to a grid cell that is not a Barrier under them |
| Search.ScoredNotBarrier | pathfinding.py:146-152 | along lists that skip the recorded Barriers, no node the search scores other than `start` was a Barrier |
| Search.RunSearch | pathfinding.py:212 | the call of `algorithm` after a refresh: the clauses of `Search.SearchFromScratch` about the run, stated from the colours at the call |
| Search.SearchFromScratch | pathfinding.py:207-212 | refresh then run: every cell's list is the one `update_neighbors` computes from the colours before the run; a wall other than `start` is still a wall afterwards; on True the ghost `path` is a walk from `start` to `end` through grid cells by unit steps, coloured Path before `end`, with `end` coloured End; no node after `start` was a Barrier before the run; every cell off the path is as it was, or Open, or Closed. On False no walk from `start` reaches `end`, every cell such a walk reaches other than `start` is Closed, and every other cell other than `start` is Closed or as it was |
| Search.FoundUnscored | pathfinding.py:138-143 | when `end` is popped every unscored cell other than `start` and `end` keeps its colour from before the run, and the chain from `end` holds only scored nodes |
| Search.ScoredLinked | pathfinding.py:146-152 | every scored node other than `start` has a predecessor that is a grid cell listing it as a neighbour |
| Search.Algorithm | pathfinding.py:122-162 | terminates; True gives `end` coloured End with a Path-coloured walk back to `start` along neighbour links, and leaves every other cell as it was or Open or Closed, and every cell other than `start` and `end` that was never scored as it was; every scored node other than `start` has a predecessor in whose neighbour list it is; False means `end` is unreachable, `start` keeps its colour, every cell other than `start` is Closed if it was scored and as it was if not, so none is left Open by the run, and every cell reachable from `start` other than `start` is Closed |

## Left out

- Rendering: pygame window creation, colour RGB values, `Node.draw`, `draw_grid` and `draw`. The colours are the enum `Color`.
- The `draw` callback given to `algorithm` and `reconstruct_path` is left out as a no-op.
- The event polling inside `algorithm` (`pygame.quit` on a quit event) is left out: it is I/O.
- The `main` loop is left out: mouse and keyboard dispatch, click placement and the Escape reset. Only what Space triggers is modelled: the neighbour refresh followed by `algorithm` (`Search.SearchFromScratch`).
- `queue.PriorityQueue` is a sequence of entries with a pop of the least (f, count). Its heap layout and its thread safety are not modelled.
- The `float('inf')` defaults are missing map keys, not floating-point values.
- Search.Algorithm: does not prove that the path found is a shortest one. The search re-expands nodes and starts with f = 0, and the neighbour relation is asymmetric at row 0 and column 0. Only reachability and the shape of the path are proved.
- Search.Algorithm: the neighbour lists are read as a ghost snapshot taken at the start of the run (`Search.Snapshot`). The search never writes them, and every neighbour must be a grid cell (`Nodes.NeighborsInside`, which `Nodes.ComputedUnitSteps` gives after a refresh).
- Search.Algorithm: `came_from` and `g_score` are returned as ghost results so that contracts can speak of them. The source keeps them local.
- Nodes.Node.UpdateNeighbors: the source resets `self.neighbors` and appends to it in place. The model builds the list in a local variable and assigns it once. No other code observes the list in between.
- Nodes.Node.UpdateNeighbors: its own contract states idempotence only for unchanged colours. Idempotence under a recolouring that keeps the Barriers is stated by `Nodes.CellListCurrent` and by `Grid.UpdateAllNeighbors`. Stating it on this method as well makes its proof too costly.
- Nodes.Node.UpdateNeighbors: the source has no precondition; the model requires the grid to be square and well-formed. A grid from `make_grid` is always like that.
- Grid.GetClickedPos: the source divides by `width // rows` without a check. The model requires the divisor to be non-zero, where Python would raise `ZeroDivisionError`.
- Grid.MakeGrid: `rows == 0` makes the source raise `ZeroDivisionError`. The model requires a non-zero `rows`.
- Search.SearchFromScratch: pressing Space before both endpoints are placed passes `None` to `algorithm`, which then fails. The model requires `start` and `end` to be cells of the grid.
