# Kami solver and grid binning, in Dafny

This project models the two algorithmic cores of a solver for a tile-recolouring
puzzle (every move recolours one region; neighbouring regions of one colour then
merge; the goal is a board of a single colour):

- `solver.py`:
  - the value types `Colour` and `Group` and `Group.touches`;
  - the region graph built by `solveGraph`;
  - the contraction `reduceGraph`, which merges equal-coloured neighbours;
  - the recursive `solve`.
- `rektdect.py`: the connected-component labelling of a pixel grid:
  - `getNeighbours`;
  - the recursive flood fill `floodFromPoint`;
  - the binning loop `customBin`.

Layout:

- `solver_values.dfy` (module `SolverValues`): colours, regions, region equality
  and hash, and `touches` as functions.
- `puzzle_graph.dfy` (module `PuzzleGraph`): the graph as a value.
  - It is a map from region index to `Node(colour, points)`, plus a set of
    unordered index pairs.
  - One contraction step is the function `Merge`. Lemmas state what a merge does
    to nodes, edges, neighbourhoods, cells and colours.
  - `Sound` says the edges join exactly the distinct regions that touch; the
    graph `solveGraph` builds has it, and merges, moves and contraction keep it.
- `reduce.dfy` (module `Reduce`):
  - the imperative contraction step `Contract`, proved equal to `Merge`;
  - the relation `ReducesTo`, the possible outcomes of `reduceGraph` under every
    choice of edge, with its lemmas;
  - the method `ReduceGraph`.
- `search.dfy` (module `Search`):
  - the relation `Run`, describing the traces `solve` can produce;
  - the method `Solve`.
- `build.dfy` (module `Build`): the node and edge loops of `solveGraph`, and
  `SolveGraph` itself.
- `common.dfy` (module `Common`): city-block distance and a chooser for non-empty sets, shared by both programs.
- `grid.dfy` (module `Grid`): the image as a read-only value, in-bounds
  neighbours, colour closeness on squared distances, and the flood reachability
  relation `Reaches` with its lemmas (reflexive, symmetric, transitive).
- `binning.dfy`:
  - module `Binning`: `FloodFromPoint` as a recursive method over a `bool`
    `array2`;
  - module `Labelling`: `CustomBin` as a loop over an `int` `array2` and the
    list of undecided cells. A ghost map of labels is kept in step with the
    array, and the invariant `Binned` about that map yields the final result:
    labels are exactly the flood components, numbered from 1 in row-major order
    of their first cell.

Where a description of the program and its code disagree, the model follows the
code.
- Some descriptions of the solver give `solve` a move budget, a pruning rule and
  a depth-first search over all branches.
- The code has none of these: `solve` tries only the first node that has a
  neighbour, with that neighbour's colour, and returns whatever the recursive
  call returns. `Solve` models exactly that.

## Model

| member | source | states |
|---|---|---|
| SolverValues.ColourEq | solver.py:44-45 | Colour equality holds exactly when the two colours are equal as values, channel by channel |
| SolverValues.GroupIdentity | solver.py:28-32 | Region equality holds exactly when the indices are equal. Equal regions hash equally. Changing a region's colour or points never changes its identity |
| SolverValues.TouchesPoint | solver.py:19-21 | The inner scan is true exactly when some point of the list is at city-block distance 1 from the given point |
| SolverValues.Touches | solver.py:17-22 | The double loop is true exactly when some pair of points, one from each list, is at city-block distance 1 |
| SolverValues.TouchesSymmetric | solver.py:17-22 | `touches` gives the same answer whichever region asks |
| SolverValues.GroupTouches | solver.py:17-22 | Two regions touch exactly when some point of each is at city-block distance 1; a region without points touches nothing |
| PuzzleGraph.Merge | solver.py:71-106 | Contracting edge a-b leaves a simple graph whose nodes are the old ones minus `b` |
| PuzzleGraph.MergeCount | solver.py:106 | A merge removes exactly one node |
| PuzzleGraph.MergeAdj | solver.py:80-106 | After a merge, two nodes are adjacent exactly when neither is `b` and either they were adjacent before or one is `a` and the other was a neighbour of `b` |
| PuzzleGraph.MergeNeighbours | solver.py:71-106 | After a merge, `a`'s neighbours are N(a) ∪ N(b) minus {a, b}. A former neighbour of `b` now has `a` in its place. Every other node keeps its neighbours |
| PuzzleGraph.MergeNeighboursAt | solver.py:80-106 | The neighbourhood of one node other than `a` and `b` after a merge, as in MergeNeighbours |
| PuzzleGraph.MergeEdges | solver.py:98-106 | Edges not at `b` survive. Edges touching neither `a` nor `b` are exactly those of before. No edge at `b` is left |
| PuzzleGraph.MergePoints | solver.py:105-106 | `a`'s points become its old points followed by `b`'s, and the multiset of all cells on the board is unchanged |
| PuzzleGraph.MergeOthers | solver.py:105-106 | Nodes other than `a` and `b` are untouched by a merge |
| PuzzleGraph.TouchesAppend | solver.py:17-22 | After `b`'s points are appended to `a`'s, the union touches a list exactly when one of the parts does |
| PuzzleGraph.MergeKeepsSound | solver.py:80-106 | If the edges join exactly the distinct regions that touch, a merge along an edge keeps that: the edges `a` inherits from `b` are the regions the merged point list now touches |
| PuzzleGraph.MergeColours | solver.py:58-106 | Merging two nodes of one colour recolours no node and keeps the set of colours on the board |
| Reduce.Contract | solver.py:71-106 | The to_remove/to_add bookkeeping, the point append and the node removal produce exactly `Merge(g, a, b)` |
| Reduce.ContractedEdges | solver.py:76-106 | Dropping b's edges, adding a's missing ones and removing `b` yields exactly the edges of `Merge` |
| Reduce.ReducesToShape | solver.py:51-112 | Every possible outcome of contraction is well formed and has no equal-coloured edge. It equals the input exactly when the input had none. Otherwise it has strictly fewer nodes, all of them original nodes. It is non-empty when the input is |
| Reduce.ReducesToPayload | solver.py:105 | Every surviving region keeps its colour, and its points start with the points it had |
| Reduce.ReducesToPreserves | solver.py:105-106 | Contraction keeps the set of colours and the multiset of all cells |
| Reduce.ReducesToSound | solver.py:51-112 | Every outcome of contraction of a graph whose edges join exactly the touching regions has that property too |
| Reduce.ReduceIdempotent | solver.py:56-66 | An outcome of contraction contracts to itself and to nothing else, so contracting twice equals contracting once |
| Reduce.ReduceGraph | solver.py:51-112 | The result is a possible outcome of contraction with no equal-coloured edge. It is unchanged exactly when there was nothing to contract, and has fewer nodes otherwise. Colours and cells are kept; survivors keep their colour and their first points. A graph whose edges join exactly the touching regions keeps that property |
| Search.Recolour | solver.py:156-158 | Recolouring changes only the one node's colour; edges, other nodes and that node's points stay |
| Search.RecolourKeepsSound | solver.py:156-158 | Recolouring keeps the edges joining exactly the touching regions, since it changes no points and no edges |
| Search.MoveKeepsSound | solver.py:155-163 | A move (recolour, then contract) keeps the edges joining exactly the touching regions, so every graph `solve` recurses on matches its board |
| Search.LegalMoveShrinks | solver.py:150-163 | Recolouring a node to a neighbour's colour and contracting always removes at least one node |
| Search.RunCons | solver.py:160-167 | A legal move in front of a run from the contracted graph is a run of the original graph |
| Search.EdgeGivesNeighbour | solver.py:148-154 | If a graph has an edge, some node has a neighbour, so the loops fall through only on an edgeless graph |
| Search.RunLength | solver.py:150-167 | A run never makes as many moves as the graph has regions, so the recursion depth is below the initial node count |
| Search.Solve | solver.py:142-167 | The moves made form a run: each is a legal recolouring followed by contraction. A success returns `path` plus the number of moves and `solution` extended by exactly those moves. One region returns `(path, solution)` at once. A `None` result means the run stopped at a graph with no edge whose region count is not one (see EdgeGivesNeighbour); it is zero only when the board itself is empty. Fewer moves are made than there are nodes |
| Build.GroupNodes | solver.py:175-180 | One node per sub-group of a colour group, in order, each with the group's `'_meta_'` colour |
| Build.AddNodes | solver.py:171-182 | The nodes are numbered 0, 1, … in sub-group order, and node `k` carries the k-th sub-group's colour and points |
| Build.AddEdges | solver.py:185-191 | The graph is simple. Two nodes are joined exactly when they are distinct and some point of one is at city-block distance 1 from a point of the other (equivalently, when `touches` holds) |
| Build.BuildGraph | solver.py:171-191 | The graph built before contraction has both the node numbering of AddNodes and the edges of AddEdges |
| Build.SolveGraph | solver.py:170-195 | The built graph has one node per sub-group, numbered in order with that sub-group's colour and points, and joins exactly the distinct regions that touch. It is contracted to one of its possible outcomes, which keeps all cells and still joins exactly the touching regions. `solve` is then run on it from zero moves, and a solution's move count is its number of moves |
| Grid.Neighbours | rektdect.py:97-108 | At most four cells, all distinct and at city-block distance 1. For an in-grid point they are exactly the in-grid cells at city-block distance 1 |
| Grid.CloseIsTruncatedTest | rektdect.py:117-122 | For every integer threshold, `int(euclidean distance) < thresh` holds exactly when the squared distance is below `thresh * thresh` and `thresh > 0` |
| Grid.StepSymmetric | rektdect.py:97-122 | A flood step from p to q can be taken back from q to p |
| Grid.ReachesInGrid | rektdect.py:111-123 | Both ends of a flood walk lie in the grid |
| Grid.ReachesTrans | rektdect.py:111-123 | Flood reachability is transitive |
| Grid.ReachesSymmetric | rektdect.py:111-123 | Flood reachability is symmetric |
| Grid.ClosedHoldsReach | rektdect.py:111-123 | A set that contains the start and is closed under flood steps contains every cell reachable from the start |
| Grid.StepNeedsPositive | rektdect.py:122 | No flood step exists unless the threshold is positive |
| Grid.NoStepBelowZero | rektdect.py:122-126 | With a threshold of 0 or below (the `customBin` default), a flood reaches exactly its start cell |
| Binning.GrownByNeighbour | rektdect.py:116-123 | After recursing into a close neighbour, every newly marked cell is still reachable from the point and still has all its steps marked, and every close neighbour visited so far is marked |
| Binning.FloodFromPoint | rektdect.py:111-123 | An already-marked start leaves the marks unchanged. Marks are only added, and the start ends marked. Every newly marked cell is reachable from the start and has all its flood steps marked |
| Binning.FloodFromCleanMask | rektdect.py:137-138 | From an all-false mask, the flood marks exactly the cells reachable from its start |
| Labelling.AllCells | rektdect.py:129-130 | The initial undecided list holds every cell of the grid, in row-major order |
| Labelling.Remove | rektdect.py:144 | `list.remove` takes away one occurrence of the cell and nothing else |
| Labelling.RemoveSorted | rektdect.py:144 | On a row-major list without repeats, `remove` keeps the order and removes every occurrence of the cell |
| Labelling.LabelGroup | rektdect.py:140-145 | Every marked cell gets the group id and leaves the undecided list; other cells keep their labels. The list is still exactly the cells labelled 0, in order, and is shorter when the flood marked anything. The `remove` never meets a missing cell |
| Labelling.BinnedInitially | rektdect.py:129-132 | Before the loop, every cell is labelled 0 and listed as undecided |
| Labelling.GroupUndecided | rektdect.py:136-144 | A flood from the first undecided cell reaches only cells still labelled 0 |
| Labelling.FloodUndecided | rektdect.py:136-144 | A flood from the first undecided cell reaches no labelled cell and no earlier start |
| Labelling.LabelGroupReady | rektdect.py:136-144 | Before labelling, the flood from the first undecided cell contains that cell and covers only cells labelled 0 |
| Labelling.StepRange | rektdect.py:140-146 | After a pass, labels stay on the whole grid and within 0 to the new group count |
| Labelling.StepStartsLabelled | rektdect.py:136-146 | After a pass, each group, the new one included, still carries its own number at its start cell |
| Labelling.StepLabelsReached | rektdect.py:136-146 | After a pass, every labelled cell is reachable from its group's start |
| Labelling.StepReachedLabelled | rektdect.py:136-146 | After a pass, every cell reachable from a group's start carries that group's label |
| Labelling.SortedHeadFirst | rektdect.py:136 | The first undecided cell comes first in row-major order among the undecided cells |
| Labelling.StepStartsFirst | rektdect.py:136-146 | After a pass, every cell before a group's start in row-major order belongs to an earlier group |
| Labelling.BinnedStep | rektdect.py:134-146 | One pass of the loop keeps the labelling invariant, with one more group |
| Labelling.BinnedComponents | rektdect.py:134-147 | When nothing is undecided, every cell has a label in 1..groups, each start carries its group's number, and two cells share a label exactly when a flood joins them |
| Labelling.SameLabelSameGroup | rektdect.py:134-147 | Two cells share a label exactly when one is reachable from the other |
| Labelling.FloodGroup | rektdect.py:136-138 | A fresh mask flooded from the start marks exactly the cells reachable from it |
| Labelling.BinNext | rektdect.py:134-146 | One loop pass shortens the undecided list and keeps the invariant with one more group |
| Labelling.LabelFlood | rektdect.py:140-146 | Labelling the flooded cells shortens the undecided list and keeps the invariant with one more group |
| Labelling.LabelledStep | rektdect.py:140-146 | The relabelled map and the shortened list satisfy the invariant with the new group added |
| Labelling.CustomBin | rektdect.py:126-147 | The output has the image's dimensions, and every cell's label is between 1 and the group count. Group k+1 is labelled at its start cell, and every cell before that start in row-major order is in an earlier group. Two cells share a label exactly when a flood joins them. With a threshold of 0 or below, every cell has a label of its own |
| Labelling.ComponentsOnArray | rektdect.py:129-147 | The final label map, read off the output array, gives CustomBin's guarantees |
| Labelling.ZeroThresholdSingletons | rektdect.py:126 | With the default threshold 0, no two cells share a label |

## Left out

- `Colour.__str__`, `Group.__str__` and `Colour.json`: formatting only. A move records the `Colour` value where the source records `str(colour)`.
- Python object aliasing from `graph.copy()`, a shallow copy: graphs are values.
  - In the source, `xnode.colour = colour` and `points +=` also change the nodes of the caller's graph.
  - `solve` never looks at the parent graph after its first branch, so the returned result is the same.
- networkx: its node and edge iteration order, `sorted(g.edges())` on unordered `Group` objects, and dict order in `solve`'s loop. Every such choice is modelled as an arbitrary pick (`:|`), and every property is proved for all picks.
- Reduce.ReducesTo: confluence is not claimed. Different edge orders may merge regions into different surviving indices, and the model does not prove they give equal graphs.
- Search.Solve: the 3-tuple return at solver.py:165 is not modelled. Its test reads the parent graph, which has more than one node there, so the branch is dead; the model marks it unreachable.
- Search.Solve: the result is `Option<Solution>`, where the source returns a pair or an implicit `None`.
- Default arguments are not modelled: every call passes its arguments. `solve`'s default `solution=None` (solver.py:142) would fail at `soln.append` (solver.py:160-161) on a graph with an edge, and `floodFromPoint`'s default `dims=(0, 0)` (rektdect.py:111) would allow only left and up neighbours.
- `serializeGraph`, the `__main__` blocks, argument parsing, file I/O, printing and display: input and output only.
- `kami.fromArrays` and `kami.toArrays`: not part of this model. `solveGraph`'s input is taken as a parsed sequence of colour groups (colour plus point lists), in the order Python's dict iteration happens to give.
- force/force.js: a browser visualisation.
- The other functions of rektdect.py (`griddect`, `get_inside_boxes`, `gauss`, `KBin`, `reduceBins`): image processing, floating point and foreign libraries.
- Grid.CloseIsTruncatedTest: the floating-point square root inside `distance.euclidean` is not modelled. Closeness is the exact integer test on squared distances, and the lemma relates it to the truncated square root.
- Labelling.CustomBin: `outputData` is a float array in the source; labels are integers here. The group start cells are returned as a ghost value.
- Binning.FloodFromPoint: Python's recursion limit is not modelled. On a large flood the source would stop with a `RuntimeError`; the model recurses without bound.
- Grid: the image is an immutable value (`Image`), since nothing in the core writes to it. Pixel channels are unbounded integers (`map(int, …)` in the source).
