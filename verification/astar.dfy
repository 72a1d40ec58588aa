/** The A* path-finding manager (AStarMgr): a map of walkable and blocked
    cells, one search node per cell, the open list and the closed list, and
    the search that fills them. */
module AStar {
  import opened Grid
  import opened Search

  /** SortOpenList: the three-way comparison by f that orders the open list. */
  function SortOpenList(a: SearchNode, b: SearchNode): (r: int)
    ensures r == 1 <==> a.f > b.f
    ensures r == -1 <==> a.f < b.f
    ensures r == 0 <==> a.f == b.f
  {
    if a.f > b.f then 1
    else if a.f < b.f then -1
    else 0
  }

  /** The comparison is a valid sort order: antisymmetric and transitive. */
  lemma SortOpenListIsOrder(a: SearchNode, b: SearchNode, c: SearchNode)
    ensures SortOpenList(a, b) == -SortOpenList(b, a)
    ensures SortOpenList(a, b) <= 0 && SortOpenList(b, c) <= 0 ==> SortOpenList(a, c) <= 0
  {
  }

  class AStarMgr {
    // the width and height of the map
    var mapW: nat
    var mapH: nat
    // the type (walkable or stop) of every cell, indexed [x, y]
    var types: array2<NodeType>
    // the search node of every cell of the map
    var nodes: map<Cell, SearchNode>
    // the open list: cells found but not yet closed
    var openList: seq<Cell>
    // the closed list: cells the search has moved to, in order
    var closeList: seq<Cell>

    /** The type grid has the map's dimensions. */
    ghost predicate Shaped()
      reads this`mapW, this`mapH, this`types
    {
      types.Length0 == mapW && types.Length1 == mapH
    }

    /** The object invariant: the type grid has the map's dimensions and
        there is a node for exactly the cells of the map. */
    ghost predicate Valid()
      reads this`mapW, this`mapH, this`types, this`nodes
    {
      Shaped() && forall c :: c in nodes <==> InBounds(c)
    }

    /** The manager before any map is loaded: a 0-by-0 map and empty lists. */
    constructor ()
      ensures Valid() && mapW == 0 && mapH == 0
      ensures openList == [] && closeList == []
    {
      mapW, mapH := 0, 0;
      types := new NodeType[0, 0];
      nodes := map[];
      openList, closeList := [], [];
    }

    /** InitMapInfo: takes the map's dimensions and cell types from
        `cellTypes` and creates one node per cell with empty search fields.
        The open and closed lists are left as they were. */
    method InitMapInfo(cellTypes: array2<NodeType>)
      modifies this
      ensures Valid() && fresh(types)
      ensures mapW == cellTypes.Length0 && mapH == cellTypes.Length1
      ensures forall i, j | 0 <= i < mapW && 0 <= j < mapH :: types[i, j] == cellTypes[i, j]
      ensures forall c | c in nodes :: nodes[c] == Unvisited
      ensures openList == old(openList) && closeList == old(closeList)
    {
      var w, h := cellTypes.Length0, cellTypes.Length1;
      var t := new NodeType[w, h];
      var n: map<Cell, SearchNode> := map[];
      for i := 0 to w
        modifies t
        invariant forall i', j | 0 <= i' < i && 0 <= j < h :: t[i', j] == cellTypes[i', j]
        invariant forall c :: c in n <==> 0 <= c.x < i && 0 <= c.y < h
        invariant forall c | c in n :: n[c] == Unvisited
      {
        for j := 0 to h
          modifies t
          invariant forall i', j' | 0 <= i' < i && 0 <= j' < h :: t[i', j'] == cellTypes[i', j']
          invariant forall j' | 0 <= j' < j :: t[i, j'] == cellTypes[i, j']
          invariant forall c :: c in n <==> (0 <= c.x < i && 0 <= c.y < h) || (c.x == i && 0 <= c.y < j)
          invariant forall c | c in n :: n[c] == Unvisited
        {
          t[i, j] := cellTypes[i, j];
          n := n[Cell(i, j) := Unvisited];
        }
      }
      mapW, mapH := w, h;
      types, nodes := t, n;
    }

    predicate InBounds(c: Cell)
      reads this`mapW, this`mapH
    {
      InGrid(c, mapW, mapH)
    }

    /** The cell is on the map and not a stop. */
    predicate IsFree(c: Cell)
      reads this`mapW, this`mapH, this`types, types
      requires Shaped()
    {
      InBounds(c) && types[c.x, c.y] == Walk
    }

    /** The walkable cells of the map. */
    ghost function FreeCells(): set<Cell>
      reads this`mapW, this`mapH, this`types, types
      requires Shaped()
    {
      set x: int, y: int | 0 <= x < mapW && 0 <= y < mapH && types[x, y] == Walk :: Cell(x, y)
    }

    /** `free` holds exactly the walkable cells of the map. */
    ghost predicate FreeIs(free: set<Cell>)
      reads this`mapW, this`mapH, this`types, types
      requires Shaped()
    {
      forall c :: c in free <==> IsFree(c)
    }

    /** A closed list of distinct walkable cells has at most w * h cells. */
    lemma FreeCellsBound(free: set<Cell>, closed: seq<Cell>)
      requires Shaped() && FreeIs(free)
      requires Distinct(closed) && forall c | c in closed :: c in free
      ensures |closed| <= mapW * mapH
    {
      DistinctCellsBound(closed, mapW, mapH);
    }

    /** The walkable cells are exactly the cells IsFree accepts. */
    lemma FreeCellsAreFree()
      requires Shaped()
      ensures forall c :: c in FreeCells() <==> IsFree(c)
    {
      forall c | IsFree(c) ensures c in FreeCells() {
        assert c == Cell(c.x, c.y);
      }
    }

    /** The start of a search: both lists emptied, the start cell closed
        with no father and g = h = f = 0. */
    method ResetSearch(start: Cell, ghost end: Cell, ghost free: set<Cell>)
      requires Valid() && FreeIs(free) && start in free && end in free
      modifies this`openList, this`closeList, this`nodes
      ensures Valid()
      ensures openList == [] && closeList == [start]
      ensures nodes == old(nodes)[start := Unvisited]
      ensures FrontierInv(free, nodes, openList, closeList, start, end)
      ensures ExpandedUpTo(free, openList, closeList, 0)
    {
      closeList := [];
      openList := [];
      nodes := nodes[start := nodes[start].(father := None, f := 0.0, g := 0.0, h := 0.0)];
      closeList := closeList + [start];
      InitialInv(free, nodes, start, end);
    }

    /** FindNearlyNodeToOpenList: the cell (x, y), reached from the current
        cell `father` at step cost `cost`, joins the open list when it is on
        the map, walkable and in neither list, and then records its father,
        g, h and f; otherwise nothing changes. */
    method FindNearlyNodeToOpenList(x: int, y: int, cost: real, father: Cell, end: Cell, ghost free: set<Cell>)
      requires Valid() && InBounds(father) && FreeIs(free)
      modifies this`openList, this`nodes
      ensures Valid()
      ensures Frontier(nodes, openList) == TryCell(free, old(nodes), old(openList), closeList, father, Cell(x, y), cost, end)
    {
      var c := Cell(x, y);
      if x < 0 || x >= mapW || y < 0 || y >= mapH {
        return;
      }
      if types[x, y] == Stop || c in closeList || c in openList {
        return;
      }
      var g := nodes[father].g + cost;
      var h := Manhattan(c, end) as real;
      nodes := nodes[c := nodes[c].(father := Some(father), g := g, h := h, f := g + h)];
      openList := openList + [c];
    }

    /** FindNearlyNodeToOpenList on the m-th neighbour of cur, at the cost
        of that move: exactly try number m of the expansion of cur. */
    method TryNeighbour(x: int, y: int, cost: real, cur: Cell, end: Cell, ghost free: set<Cell>, ghost m: nat)
      requires Valid() && InBounds(cur) && FreeIs(free)
      requires m < Moves && Neighbours(cur)[m] == Cell(x, y) && StepCost(cur, Cell(x, y)) == cost
      modifies this`openList, this`nodes
      ensures Valid()
      ensures Frontier(nodes, openList) == Step(free, Frontier(old(nodes), old(openList)), closeList, cur, end, m)
    {
      FindNearlyNodeToOpenList(x, y, cost, cur, end, free);
      StepIsTry(free, Frontier(old(nodes), old(openList)), closeList, cur, end, m, x, y, cost);
    }

    // The eight calls of one expansion are grouped in three rows only to
    // keep each proof small; the source makes them in one straight line.

    /** Tries the three neighbours in the row above. */
    method TryRowAbove(cur: Cell, end: Cell, ghost free: set<Cell>)
      requires Valid() && InBounds(cur) && FreeIs(free)
      modifies this`openList, this`nodes
      ensures Valid()
      ensures Frontier(nodes, openList) == Step(free, Step(free, Step(free, Frontier(old(nodes), old(openList)), closeList, cur, end, 0), closeList, cur, end, 1), closeList, cur, end, 2)
    {
      NeighbourMoves(cur);
      TryNeighbour(cur.x - 1, cur.y - 1, 1.4, cur, end, free, 0);
      TryNeighbour(cur.x, cur.y - 1, 1.0, cur, end, free, 1);
      TryNeighbour(cur.x + 1, cur.y - 1, 1.4, cur, end, free, 2);
    }

    /** Tries the left and right neighbours. */
    method TrySides(cur: Cell, end: Cell, ghost free: set<Cell>)
      requires Valid() && InBounds(cur) && FreeIs(free)
      modifies this`openList, this`nodes
      ensures Valid()
      ensures Frontier(nodes, openList) == Step(free, Step(free, Frontier(old(nodes), old(openList)), closeList, cur, end, 3), closeList, cur, end, 4)
    {
      NeighbourMoves(cur);
      TryNeighbour(cur.x - 1, cur.y, 1.0, cur, end, free, 3);
      TryNeighbour(cur.x + 1, cur.y, 1.0, cur, end, free, 4);
    }

    /** Tries the three neighbours in the row below. */
    method TryRowBelow(cur: Cell, end: Cell, ghost free: set<Cell>)
      requires Valid() && InBounds(cur) && FreeIs(free)
      modifies this`openList, this`nodes
      ensures Valid()
      ensures Frontier(nodes, openList) == Step(free, Step(free, Step(free, Frontier(old(nodes), old(openList)), closeList, cur, end, 5), closeList, cur, end, 6), closeList, cur, end, 7)
    {
      NeighbourMoves(cur);
      TryNeighbour(cur.x - 1, cur.y + 1, 1.4, cur, end, free, 5);
      TryNeighbour(cur.x, cur.y + 1, 1.0, cur, end, free, 6);
      TryNeighbour(cur.x + 1, cur.y + 1, 1.4, cur, end, free, 7);
    }

    /** Expands the current cell: tries its eight neighbours in the fixed
        order, diagonals at cost 1.4 and straight moves at cost 1. */
    method ExpandNeighbours(cur: Cell, end: Cell, ghost free: set<Cell>)
      requires Valid() && InBounds(cur) && FreeIs(free)
      modifies this`openList, this`nodes
      ensures Valid()
      ensures Frontier(nodes, openList) == TryFirst(free, old(nodes), old(openList), closeList, cur, end, Moves)
    {
      TryRowAbove(cur, end, free);
      TrySides(cur, end, free);
      TryRowBelow(cur, end, free);
      ExpansionSteps(free, old(nodes), old(openList), closeList, cur, end);
    }

    /** The index of the first open cell whose f is minimal, found with
        the comparison SortOpenList. */
    method MinFIndex() returns (k: nat)
      requires openList != [] && forall c | c in openList :: c in nodes
      ensures k < |openList|
      ensures forall i | 0 <= i < |openList| :: nodes[openList[k]].f <= nodes[openList[i]].f
      ensures forall i | 0 <= i < k :: nodes[openList[k]].f < nodes[openList[i]].f
    {
      k := 0;
      var i := 1;
      while i < |openList|
        invariant k < i <= |openList|
        invariant forall j | 0 <= j < i :: nodes[openList[k]].f <= nodes[openList[j]].f
        invariant forall j | 0 <= j < k :: nodes[openList[k]].f < nodes[openList[j]].f
      {
        if SortOpenList(nodes[openList[i]], nodes[openList[k]]) < 0 {
          k := i;
        }
        i := i + 1;
      }
    }

    /** Moves an open cell of minimal f (the first such, in list order) to
        the end of the closed list and returns it as the new current cell. */
    method CloseMinimum() returns (cur: Cell, k: nat)
      requires openList != [] && forall c | c in openList :: c in nodes
      modifies this`openList, this`closeList
      ensures k < |old(openList)| && cur == old(openList)[k]
      ensures openList == RemoveAt(old(openList), k) && closeList == old(closeList) + [cur]
      ensures forall i | 0 <= i < |old(openList)| :: nodes[cur].f <= nodes[old(openList)[i]].f
      ensures forall i | 0 <= i < k :: nodes[cur].f < nodes[old(openList)[i]].f
    {
      k := MinFIndex();
      cur := openList[k];
      closeList := closeList + [cur];
      openList := RemoveAt(openList, k);
    }

    /** Follows the father links back from a closed cell to the start and
        reverses the cells collected: a walk from the start to `target`. */
    method BuildPath(target: Cell, ghost start: Cell, ghost end: Cell, ghost free: set<Cell>) returns (path: seq<Cell>)
      requires FatherChain(free, nodes, closeList, start, end) && target in closeList && free <= nodes.Keys
      ensures IsWalk(free, path) && path[0] == start && path[|path| - 1] == target
      ensures Reachable(free, start, target)
      ensures nodes[target].g == PathCost(path)
      ensures nodes[start].father.None?
      ensures forall i | 1 <= i < |path| :: nodes[path[i]].father == Some(path[i - 1])
    {
      var back := [target];
      var cur := target;
      ghost var fwd := [target];
      ghost var k :| 0 <= k < |closeList| && closeList[k] == cur;
      while nodes[cur].father.Some?
        invariant 0 <= k < |closeList| && closeList[k] == cur
        invariant fwd == Reversed(back) && IsWalk(free, fwd)
        invariant fwd[0] == cur && fwd[|fwd| - 1] == target
        invariant nodes[target].g == nodes[cur].g + PathCost(fwd)
        invariant FatherLinks(nodes, fwd)
        decreases k
      {
        var fa := nodes[cur].father.value;
        assert Linked(nodes, closeList[k], closeList[..k], end);
        ghost var k' :| 0 <= k' < k && closeList[k'] == fa;
        ReversedAppend(back, fa);
        WalkPrepend(free, fa, fwd);
        FatherLinksPrepend(nodes, fa, fwd);
        assert ([fa] + fwd)[|fwd|] == target;
        back := back + [fa];
        fwd := [fa] + fwd;
        cur := fa;
        k := k';
      }
      path := Reversed(back);
    }

    /** One expansion round: the eight neighbours of the current (last
        closed) cell are offered to the open list. The new nodes and open
        list are the eight tries applied to the frontier f held before the
        call, nothing else; this keeps the search invariant and leaves every
        closed cell expanded. The first ensures is exactly
        Frontier(nodes, openList) == TryFirst(free, old(nodes), old(openList), closeList, cur, end, Moves),
        written over the one frontier f equal to the old one so that it is
        only used where a TryFirst term appears. */
    method ExpandCurrent(cur: Cell, ghost start: Cell, end: Cell, ghost free: set<Cell>)
      requires Valid() && FreeIs(free)
      requires FrontierInv(free, nodes, openList, closeList, start, end)
      requires closeList[|closeList| - 1] == cur
      requires ExpandedUpTo(free, openList, closeList, |closeList| - 1)
      modifies this`openList, this`nodes
      ensures Valid()
      ensures forall f {:trigger TryFirst(free, f.info, f.open, closeList, cur, end, Moves)} |
                f == Frontier(old(nodes), old(openList)) ::
                Frontier(nodes, openList) == TryFirst(free, f.info, f.open, closeList, cur, end, Moves)
      ensures FrontierInv(free, nodes, openList, closeList, start, end)
      ensures ExpandedUpTo(free, openList, closeList, |closeList|)
    {
      ghost var nodes0, open0 := nodes, openList;
      ExpandNeighbours(cur, end, free);
      TryFirstKeepsInv(free, nodes0, open0, closeList, start, end, Moves, nodes, openList);
      ExpandedAll(free, openList, closeList);
    }

    /** The second half of a round: an open cell of minimal f moves to the
        closed list and becomes the current cell, keeping the search
        invariant with the closed list within the map's w * h cells; when
        that cell is the end, the path is built from the father links. */
    method CloseNext(ghost startPos: Cell, endPos: Cell, ghost free: set<Cell>) returns (cur: Cell, k: nat, path: Option<seq<Cell>>)
      requires Valid() && FreeIs(free) && openList != []
      requires FrontierInv(free, nodes, openList, closeList, startPos, endPos)
      requires ExpandedUpTo(free, openList, closeList, |closeList|)
      modifies this`openList, this`closeList
      ensures k < |old(openList)| && cur == old(openList)[k]
      ensures openList == RemoveAt(old(openList), k) && closeList == old(closeList) + [cur] && cur != startPos
      ensures forall i | 0 <= i < |old(openList)| :: nodes[cur].f <= nodes[old(openList)[i]].f
      ensures FrontierInv(free, nodes, openList, closeList, startPos, endPos)
      ensures ExpandedUpTo(free, openList, closeList, |closeList| - 1)
      ensures |closeList| <= mapW * mapH
      ensures path.None? ==> cur != endPos
      ensures path.Some? ==>
        var p := path.value;
        cur == endPos && Reachable(free, startPos, endPos) &&
        IsWalk(free, p) && p[0] == startPos && p[|p| - 1] == endPos &&
        endPos in nodes && nodes[endPos].g == PathCost(p) &&
        (forall i | 1 <= i < |p| :: p[i] in nodes && nodes[p[i]].father == Some(p[i - 1]))
    {
      ghost var open1, closed1 := openList, closeList;
      cur, k := CloseMinimum();
      CloseKeepsInv(free, nodes, open1, closed1, startPos, endPos, k, openList, closeList);
      FreeCellsBound(free, closeList);
      if cur == endPos {
        var p := BuildPath(endPos, startPos, endPos, free);
        path := Some(p);
      } else {
        path := None;
      }
    }

    /** The search loop of FindPath from a walkable start to a walkable
        end: expand the current cell, stop with no path when the open list
        is empty, otherwise close the open cell of minimal f and stop when
        it is the end. */
    method SearchLoop(startPos: Cell, endPos: Cell, ghost free: set<Cell>) returns (path: Option<seq<Cell>>)
      requires Valid() && FreeIs(free) && startPos in free && endPos in free
      modifies this`openList, this`closeList, this`nodes
      ensures Valid()
      ensures path.Some? ==>
        var p := path.value;
        IsWalk(free, p) && p[0] == startPos && p[|p| - 1] == endPos
      ensures path.Some? ==>
        var p := path.value;
        endPos in nodes && nodes[endPos].g == PathCost(p) &&
        (forall i | 1 <= i < |p| :: p[i] in nodes && nodes[p[i]].father == Some(p[i - 1]))
      ensures startPos in nodes && nodes[startPos].father == None
      ensures closeList != [] && closeList[0] == startPos && Distinct(closeList) && |closeList| <= mapW * mapH
      ensures path.None? ==> openList == []
      ensures startPos != endPos ==> (path.Some? <==> Reachable(free, startPos, endPos))
      ensures startPos == endPos ==> path == None
    {
      ResetSearch(startPos, endPos, free);
      FreeCellsBound(free, closeList);
      var start := startPos;
      while true
        invariant Valid() && FreeIs(free)
        invariant FrontierInv(free, nodes, openList, closeList, startPos, endPos)
        invariant start == closeList[|closeList| - 1]
        invariant ExpandedUpTo(free, openList, closeList, |closeList| - 1)
        invariant endPos in closeList ==> endPos == startPos
        invariant |closeList| <= mapW * mapH
        decreases mapW * mapH - |closeList|
      {
        ExpandCurrent(start, startPos, endPos, free);
        if |openList| == 0 {
          ExhaustedIsClosedRegion(free, nodes, closeList, startPos, endPos, endPos);
          return None;
        }
        var k;
        start, k, path := CloseNext(startPos, endPos, free);
        if path.Some? {
          return;
        }
      }
    }

    /** FindPath: searches from startPos to endPos. A query with a cell off
        the map or on a stop fails at once and changes nothing. Otherwise
        the search runs until the open list is empty (no path) or the end
        is closed, and the path follows the father links from the end. */
    method FindPath(startPos: Cell, endPos: Cell) returns (path: Option<seq<Cell>>)
      requires Valid()
      modifies this`openList, this`closeList, this`nodes
      ensures Valid()
      ensures !(IsFree(startPos) && IsFree(endPos)) ==> path == None && unchanged(this)
      ensures path.Some? ==>
        var p := path.value;
        IsWalk(FreeCells(), p) && p[0] == startPos && p[|p| - 1] == endPos
      ensures path.Some? ==>
        var p := path.value;
        endPos in nodes && nodes[endPos].g == PathCost(p) &&
        (forall i | 1 <= i < |p| :: p[i] in nodes && nodes[p[i]].father == Some(p[i - 1]))
      ensures path.Some? ==> startPos in nodes && nodes[startPos].father == None
      ensures IsFree(startPos) && IsFree(endPos) ==>
        closeList != [] && closeList[0] == startPos && Distinct(closeList) && |closeList| <= mapW * mapH &&
        (path.None? ==> openList == [])
      ensures IsFree(startPos) && IsFree(endPos) && startPos != endPos ==>
        (path.Some? <==> Reachable(FreeCells(), startPos, endPos))
      ensures startPos == endPos ==> path == None
    {
      if startPos.x < 0 || startPos.x >= mapW || startPos.y < 0 || startPos.y >= mapH ||
         endPos.x < 0 || endPos.x >= mapW || endPos.y < 0 || endPos.y >= mapH {
        return None;
      }
      if types[startPos.x, startPos.y] == Stop || types[endPos.x, endPos.y] == Stop {
        return None;
      }
      ghost var free := FreeCells();
      FreeCellsAreFree();
      path := SearchLoop(startPos, endPos, free);
    }

    /** FindPath with the case start == end answered by the one-cell path:
        a path is returned exactly when both cells are walkable and the end
        is reachable from the start. */
    method FindPathCorrected(startPos: Cell, endPos: Cell) returns (path: Option<seq<Cell>>)
      requires Valid()
      modifies this`openList, this`closeList, this`nodes
      ensures Valid()
      ensures path.Some? <==> IsFree(startPos) && IsFree(endPos) && Reachable(FreeCells(), startPos, endPos)
      ensures !(IsFree(startPos) && IsFree(endPos)) ==> path == None && unchanged(this)
      ensures path.Some? ==>
        var p := path.value;
        IsWalk(FreeCells(), p) && p[0] == startPos && p[|p| - 1] == endPos
      ensures startPos == endPos && path.Some? ==> path.value == [startPos]
      ensures startPos != endPos && path.Some? ==>
        var p := path.value;
        endPos in nodes && nodes[endPos].g == PathCost(p) &&
        (forall i | 1 <= i < |p| :: p[i] in nodes && nodes[p[i]].father == Some(p[i - 1])) &&
        startPos in nodes && nodes[startPos].father == None
    {
      FreeCellsAreFree();
      if startPos == endPos && InBounds(startPos) && types[startPos.x, startPos.y] == Walk {
        SameCellIsReachable(FreeCells(), startPos);
        return Some([startPos]);
      }
      path := FindPath(startPos, endPos);
      if startPos == endPos && path.None? {
        assert !IsFree(startPos);
      }
    }
  }
}
