# A* grid path finding (AStarMgr)

This is a Dafny model of the A* path-finding manager `AStarMgr` and proofs about it. The manager holds:

- a rectangular map of `mapW` by `mapH` cells, each walkable or a stop;
- one search node per cell, with a father, a cost `g` from the start, an estimate `h` to the end and `f = g + h`;
- an open list of cells that have been found but not yet closed;
- a closed list of the cells the search has moved to, in order.

`FindPath(start, end)` answers `null` when either cell is off the map or blocked. Otherwise it runs the search loop:

1. Clear both lists and close the start.
2. Expand the current cell: offer its eight neighbours, in a fixed order, to the open list. Diagonal moves cost 1.4, straight ones cost 1, and `h` is the Manhattan distance to the end.
3. Stop with no path when the open list is empty.
4. Otherwise move an open cell of minimal `f` to the closed list and make it current.
5. When that cell is the end, follow the father links back to the start and reverse them. That is the path.

The model has three modules:

- `Grid` (grid.dfy): cells, the eight moves and their costs, the Manhattan heuristic, walks through walkable cells, and the list operations the search uses (`RemoveAt`, `Reverse`). It also has a cardinality bound on distinct cells of a `w` by `h` grid.
- `Search` (search.dfy): the search fields of a node, as values:
  - the neighbour tries as functions (`TryCell`, `Step`, `TryFirst`);
  - the search invariant (`FrontierInv`): the closed list is a tree of father links rooted at the start, the lists are disjoint and hold no duplicates, and every open cell's father is closed;
  - one lemma per kind of step, showing that the step keeps the invariant.
- `AStar` (astar.dfy): the class `AStarMgr`. It has the map dimensions, the type grid as an `array2`, the nodes, the open list and the closed list as fields. Its methods change them step by step as the source does, and each method is proved against the `Search` functions and invariant.

The main results are the postconditions of `AStar.AStarMgr.FindPath`:

- an invalid query returns no path and changes nothing;
- a returned path is a walk through walkable cells from the start to the end, with each cell's father the cell before it, the start without a father, and the end's `g` equal to the path's cost;
- the loop terminates, because the closed list holds distinct walkable cells and so never exceeds `mapW * mapH`;
- for two different walkable cells, a path is returned exactly when the end is reachable from the start.

## Model

| member | source | states |
|---|---|---|
| AStar.SortOpenList | AStarMgr.cs:176-184 | the comparison is 1 exactly when a.f > b.f, -1 exactly when a.f < b.f, and 0 exactly when they are equal |
| AStar.SortOpenListIsOrder | AStarMgr.cs:176-184 | the comparison is antisymmetric and transitive, so it is a valid order for List.Sort |
| AStar.AStarMgr.constructor | AStarMgr.cs:23-27 | a new manager has an empty map and empty open and closed lists |
| AStar.AStarMgr.InitMapInfo | AStarMgr.cs:45-66 | the map takes the given dimensions and cell types, there is one node for exactly each cell of the map with empty search fields, and the lists are untouched |
| AStar.AStarMgr.FreeCellsBound | AStarMgr.cs:112-148 | a closed list of distinct walkable cells has at most mapW * mapH cells, which bounds the number of rounds of the loop |
| AStar.AStarMgr.IsFree | AStarMgr.cs:82-99 | a cell is accepted as a query end exactly when it passes the bounds check and is not a stop; this is the condition in FindPath's contract |
| AStar.AStarMgr.FreeCellsAreFree | AStarMgr.cs:82-99 | the walkable cells are exactly the cells that pass the bounds check and the stop check |
| AStar.AStarMgr.ResetSearch | AStarMgr.cs:101-110 | after the reset the open list is empty, the closed list is exactly [start], the start has no father and g = h = f = 0, no other node changes, and the search invariant holds |
| AStar.AStarMgr.FindNearlyNodeToOpenList | AStarMgr.cs:186-214 | the cell joins the open list, with father = current cell, g = father's g + step cost, h = Manhattan distance to the end and f = g + h, exactly when it is on the map, walkable and in neither list; otherwise nothing changes |
| AStar.AStarMgr.TryNeighbour | AStarMgr.cs:116-130 | offering the cell at the coordinates and cost of the m-th move is try number m of the expansion |
| AStar.AStarMgr.TryRowAbove | AStarMgr.cs:116-120 | the three calls for the row above are tries 0, 1 and 2 of the expansion, in that order |
| AStar.AStarMgr.TrySides | AStarMgr.cs:122-124 | the calls for the left and right neighbours are tries 3 and 4 |
| AStar.AStarMgr.TryRowBelow | AStarMgr.cs:126-130 | the three calls for the row below are tries 5, 6 and 7 |
| AStar.AStarMgr.ExpandNeighbours | AStarMgr.cs:114-130 | the eight calls together are the full expansion of the current cell into its eight neighbours, in the source's order |
| AStar.AStarMgr.ExpandCurrent | AStarMgr.cs:114-130 | the new nodes and open list are exactly the eight tries applied to those before the call, which keeps the search invariant (no duplicates, disjoint lists, father links) and leaves every walkable neighbour of every closed cell in one of the lists |
| AStar.AStarMgr.MinFIndex | AStarMgr.cs:141-142 | the index found is that of an open cell whose f is at most every open cell's f, and no earlier cell has the same f |
| AStar.AStarMgr.CloseMinimum | AStarMgr.cs:141-148 | exactly one cell leaves the open list and is appended to the closed list, and its f is at most that of every cell that was open |
| AStar.AStarMgr.BuildPath | AStarMgr.cs:152-165 | following the fathers from a closed cell ends at the start, and the reversed cells form a walk through walkable cells from the start to that cell, with father links along it and the cell's g equal to the walk's cost |
| AStar.AStarMgr.CloseNext | AStarMgr.cs:141-166 | the open cell at the returned index, whose f is at most every open cell's f, is removed from the open list and appended to the closed list; this keeps the search invariant, never closes the start again, keeps the closed list within mapW * mapH cells, and returns a path exactly when the cell is the end |
| AStar.AStarMgr.SearchLoop | AStarMgr.cs:101-167 | the loop terminates; a returned path is a walk from start to end, and the start keeps no father, so the path is the reversed father chain; when start and end differ, a path is returned exactly when the end is reachable; no path is returned only after the open list has emptied |
| AStar.AStarMgr.FindPath | AStarMgr.cs:74-168 | a cell off the map or blocked gives no path and no change; otherwise a path is a walk from start to end through walkable cells with consistent g and father links ending at a father-less start, is returned for different cells exactly when the end is reachable, and is never returned when start equals end (see Findings) |
| AStar.AStarMgr.FindPathCorrected | AStarMgr.cs:74-168 | a path is returned exactly when both cells are walkable and the end is reachable from the start, including start == end, where the path is the one cell [start]; a query with an off-map or blocked cell returns no path and changes nothing; for start != end the path follows the father links from the father-less start, and the end's g is the path's cost |
| Search.Opened | AStarMgr.cs:206-210 | the opened cell gets the father, g = father's g + cost, h = Manhattan distance and f = g + h, and no other node changes |
| Search.TryCell | AStarMgr.cs:189-213 | a try only ever adds nodes and appends to the open list |
| Search.Step | AStarMgr.cs:116-130 | try number m offers the m-th neighbour at that move's step cost, and only adds nodes and appends to the open list |
| Search.TryFirst | AStarMgr.cs:116-130 | the first k tries, applied in the source's order, only add nodes and append to the open list |
| Search.StepIsTry | AStarMgr.cs:116-130 | when (x, y) is the m-th neighbour of the current cell and cost is that move's step cost, try number m equals offering (x, y) at that cost |
| Search.ExpansionSteps | AStarMgr.cs:116-130 | the full expansion is the eight tries in order |
| Search.InitialInv | AStarMgr.cs:105-110 | with only the start closed, father-less and at g = h = f = 0, the search invariant holds |
| Search.SkipKeepsInv | AStarMgr.cs:189-201 | a neighbour that is skipped (off the map, blocked or already listed) is accounted for |
| Search.OpenKeepsInv | AStarMgr.cs:206-213 | opening a walkable, unlisted neighbour keeps the open list free of duplicates and disjoint from the closed list, and keeps every father link valid |
| Search.TryFirstKeepsInv | AStarMgr.cs:116-130 | every prefix of the eight tries keeps the search invariant and accounts for the neighbours tried |
| Search.ExpandedAll | AStarMgr.cs:116-130 | once the eight tries are done, every walkable neighbour of the current cell is in one of the lists |
| Search.CloseKeepsInv | AStarMgr.cs:145-148 | moving an open cell to the closed list keeps the invariant, and that cell is never the start |
| Search.ExhaustedIsClosedRegion | AStarMgr.cs:134-139 | when the open list is empty after an expansion, every cell reachable from the start has been closed, so null means the end is unreachable |
| Search.FatherLinksPrepend | AStarMgr.cs:157-161 | putting a cell's father in front of the chain extends the father links |
| Grid.Neighbours | AStarMgr.cs:116-130 | there are exactly eight cells to try |
| Grid.NeighboursAreSteps | AStarMgr.cs:116-130 | the eight cells tried are exactly the cells one king move away |
| Grid.NeighbourMoves | AStarMgr.cs:116-130 | each of the eight tries has the source's offsets and cost: 1.4 for the diagonals and 1 for the straight moves |
| Grid.StepCost | AStarMgr.cs:116-130 | a move costs 1 or 1.4, and a king move costs 1.4 exactly when its Manhattan length is 2 (a diagonal) and 1 exactly when it is 1 |
| Grid.Manhattan | AStarMgr.cs:209 | the heuristic is zero exactly at the end cell |
| Grid.RemoveAt | AStarMgr.cs:148 | List.RemoveAt keeps the elements before the index and shifts the ones after it down by one |
| Grid.RemoveAtDistinct | AStarMgr.cs:148 | removing from a list without duplicates removes exactly that cell and leaves no duplicates |
| Grid.Reversed | AStarMgr.cs:163 | List.Reverse puts element i at position n - 1 - i |
| Grid.ReversedAppend | AStarMgr.cs:159-163 | reversing a list with a cell appended puts that cell first |
| Grid.WalkPrepend | AStarMgr.cs:157-161 | a walk extended at the front by a neighbouring walkable cell is a walk, one step more costly |
| Grid.WalkStaysInRegion | AStarMgr.cs:134-139 | a walk that starts in a region closed under moves stays in it |
| Grid.SameCellIsReachable | AStarMgr.cs:152-156 | a walkable cell reaches itself by the one-cell walk |
| Grid.AllCellsCard | AStarMgr.cs:54 | a w-by-h grid has w * h cells |
| Grid.DistinctCellsBound | AStarMgr.cs:145 | distinct cells of a w-by-h grid number at most w * h |

## Left out

- The singleton `Instance` (AStarMgr.cs:11-20): the model uses an ordinary class instance.
- The random choice of stop cells in `InitMapInfo`: the cell types are an input array, because a random choice cannot be specified.
- Negative dimensions given to `InitMapInfo`: the model takes the dimensions of the input array, which are never negative.
- The `Debug.Log` messages: they are presentation only.
- `Vector2` float coordinates and their `(int)` casts: the model takes integer cell coordinates. A fractional coordinate, which the source truncates after the bounds check, is not modelled.
- `float` arithmetic: costs are exact reals (1.4 and 1.0), and h is the Manhattan distance as a real. Rounding is not modelled.
- Node objects: the `nodes` array of `Astarnode` objects is a map from cell to search fields. The lists hold cells, which stand for their unique nodes, so the aliasing of node objects is not modelled.
- The order of the open list: `List.Sort` is not stable and leaves the whole list sorted, but the model keeps the list in the order cells were added. The model takes the first cell of minimal f. The contents of the open list are the same and the cell taken always has minimal f, but among cells of equal f the model may choose a different one than the source. After the first tie broken differently, the closed cells, the father links and the returned path may all differ from the source's. `SearchLoop` relies only on the contract of `CloseNext` (some open cell of minimal f is closed), so what it and `FindPath` guarantee (a walk from start to end, found exactly when the end is reachable) holds whichever minimal cell is chosen.
- The `node == null` check: every cell of the map has a node once the map is initialised, so it never fires.
- Optimality: the source never updates the cost of a cell it has already listed, and the Manhattan estimate is not admissible with 1.4 diagonal steps, so the source promises no shortest path and none is proved.
- The cost of `List.Contains` and of sorting: only their results are modelled.
- The walkable-cell set: the search methods take it as a ghost parameter `free`, tied to the map by `FreeIs`, and `FindPath` instantiates it with `FreeCells()`.

## Findings

| source | as written | input that shows it | evidently intended | confidence | as-written member | corrected member |
|---|---|---|---|---|---|---|
| AStarMgr.cs:105-152 | the start cell is put on the closed list before the loop, and the loop only compares cells taken from the open list with the end, so a closed cell is never found again | FindPath(p, p) with p a walkable cell: the search exhausts the region around p and returns null | the one-cell path [p] | not executed | AStar.AStarMgr.FindPath | AStar.AStarMgr.FindPathCorrected |
