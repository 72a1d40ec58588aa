/** The bookkeeping of one A* search, as values: the search fields of each
    cell, what holds of the open and closed lists while the search runs, and
    why each step of the search keeps it. */
module Search {
  import opened Grid

  /** The search fields of one grid node: the cell it was reached from,
      the cost g from the start, the estimate h to the end and f = g + h. */
  datatype SearchNode = SearchNode(father: Option<Cell>, g: real, h: real, f: real)

  /** The fields of the start node, and of every node before its first search. */
  const Unvisited := SearchNode(None, 0.0, 0.0, 0.0)

  /** The fields a cell c receives when it is found from `father` at step
      cost `cost`: father, g = father's g + cost, h = Manhattan distance to
      `end`, and f = g + h. */
  function Opened(info: map<Cell, SearchNode>, c: Cell, father: Cell, cost: real, end: Cell): (info': map<Cell, SearchNode>)
    requires father in info
    ensures info'.Keys == info.Keys + {c}
    ensures forall d | d in info && d != c :: info'[d] == info[d]
    ensures info'[c].father == Some(father) && info'[c].g == info[father].g + cost
    ensures info'[c].h == Manhattan(c, end) as real && info'[c].f == info'[c].g + info'[c].h
  {
    var g := info[father].g + cost;
    var h := Manhattan(c, end) as real;
    info[c := SearchNode(Some(father), g, h, g + h)]
  }

  /** Along p, the father of every cell after the first is the cell before it. */
  ghost predicate FatherLinks(info: map<Cell, SearchNode>, p: seq<Cell>)
  {
    forall i | 1 <= i < |p| :: p[i] in info && info[p[i]].father == Some(p[i - 1])
  }

  /** The father links extend to the front when the first cell's father is put first. */
  lemma FatherLinksPrepend(info: map<Cell, SearchNode>, a: Cell, p: seq<Cell>)
    requires |p| >= 1 && p[0] in info && info[p[0]].father == Some(a)
    requires FatherLinks(info, p)
    ensures FatherLinks(info, [a] + p)
  {
    var q := [a] + p;
    forall i | 1 <= i < |q| ensures q[i] in info && info[q[i]].father == Some(q[i - 1]) {
      assert q[i] == p[i - 1];
      if i > 1 {
        assert q[i - 1] == p[i - 2];
      }
    }
  }

  /** Cell c has been found: its father is a neighbour among `earlier`, its g
      extends the father's g by the step cost, h is the Manhattan distance to
      `end`, and f = g + h. */
  ghost predicate Linked(info: map<Cell, SearchNode>, c: Cell, earlier: seq<Cell>, end: Cell)
  {
    c in info && info[c].father.Some? &&
    var p := info[c].father.value;
    p in earlier && p in info && IsStep(p, c) &&
    info[c].g == info[p].g + StepCost(p, c) &&
    info[c].h == Manhattan(c, end) as real &&
    info[c].f == info[c].g + info[c].h
  }

  /** What holds throughout a search from `start` to `end` over the walkable
      cells `free`: the closed list begins with the start, both lists hold
      walkable cells without repetition and are disjoint, the start has no
      father and g = h = f = 0, every other closed cell's father was closed
      before it, and every open cell's father is closed. */
  ghost predicate FrontierInv(free: set<Cell>, info: map<Cell, SearchNode>, open: seq<Cell>, closed: seq<Cell>,
                              start: Cell, end: Cell)
  {
    end in free && free <= info.Keys &&
    FatherChain(free, info, closed, start, end) &&
    (forall c | c in open :: c in free) &&
    Distinct(open) && Distinct(closed) &&
    (forall c | c in open :: c !in closed) &&
    (forall c | c in open :: Linked(info, c, closed, end))
  }

  /** The closed list as a tree of father links: it begins with the start,
      which has no father and g = h = f = 0, its cells are walkable, and
      every later cell's father was closed before it. */
  ghost predicate FatherChain(free: set<Cell>, info: map<Cell, SearchNode>, closed: seq<Cell>, start: Cell, end: Cell)
  {
    |closed| >= 1 && closed[0] == start &&
    (forall c | c in closed :: c in free && c in info) &&
    info[start] == Unvisited &&
    (forall i | 1 <= i < |closed| :: Linked(info, closed[i], closed[..i], end))
  }

  /** Every walkable neighbour of c is in one of the lists. */
  ghost predicate Expanded(free: set<Cell>, open: seq<Cell>, closed: seq<Cell>, c: Cell)
  {
    forall n | IsStep(c, n) && n in free :: n in open || n in closed
  }

  /** The first k closed cells have been expanded. */
  ghost predicate ExpandedUpTo(free: set<Cell>, open: seq<Cell>, closed: seq<Cell>, k: int)
    requires k <= |closed|
  {
    forall i | 0 <= i < k :: Expanded(free, open, closed, closed[i])
  }

  /** The first m of the eight neighbours of c, where walkable, are in one of the lists. */
  ghost predicate ExpandedBy(free: set<Cell>, open: seq<Cell>, closed: seq<Cell>, c: Cell, m: int)
    requires m <= Moves
  {
    forall j | 0 <= j < m :: Neighbours(c)[j] in free ==> Neighbours(c)[j] in open || Neighbours(c)[j] in closed
  }

  /** The open list and node fields together, as one search step leaves them. */
  datatype Frontier = Frontier(info: map<Cell, SearchNode>, open: seq<Cell>)

  /** FindNearlyNodeToOpenList as a value: cell c, reached from `father` at
      step cost `cost`, is opened exactly when it is walkable and in neither
      list; otherwise nothing changes. */
  function TryCell(free: set<Cell>, info: map<Cell, SearchNode>, open: seq<Cell>, closed: seq<Cell>,
                   father: Cell, c: Cell, cost: real, end: Cell): (r: Frontier)
    requires father in info
    ensures info.Keys <= r.info.Keys && open <= r.open
  {
    if c in free && c !in open && c !in closed then Frontier(Opened(info, c, father, cost, end), open + [c])
    else Frontier(info, open)
  }

  /** Try number m of the expansion of cur: its m-th neighbour, at the step cost of that move. */
  function Step(free: set<Cell>, f: Frontier, closed: seq<Cell>, cur: Cell, end: Cell, m: nat): (r: Frontier)
    requires m < Moves && cur in f.info
    ensures f.info.Keys <= r.info.Keys && f.open <= r.open
  {
    var c := Neighbours(cur)[m];
    TryCell(free, f.info, f.open, closed, cur, c, StepCost(cur, c), end)
  }

  /** Try number m is the try of the neighbour (x, y) at cost `cost`, for
      the coordinates and cost of the m-th move. */
  lemma StepIsTry(free: set<Cell>, f: Frontier, closed: seq<Cell>, cur: Cell, end: Cell, m: nat, x: int, y: int, cost: real)
    requires m < Moves && cur in f.info
    requires Neighbours(cur)[m] == Cell(x, y) && StepCost(cur, Cell(x, y)) == cost
    ensures Step(free, f, closed, cur, end, m) == TryCell(free, f.info, f.open, closed, cur, Cell(x, y), cost, end)
  {
  }

  /** The first k of the eight neighbour tries of cur, in expansion order. */
  function TryFirst(free: set<Cell>, info: map<Cell, SearchNode>, open: seq<Cell>, closed: seq<Cell>,
                    cur: Cell, end: Cell, k: nat): (r: Frontier)
    requires k <= Moves && cur in info
    ensures info.Keys <= r.info.Keys && open <= r.open
    decreases k
  {
    if k == 0 then Frontier(info, open)
    else Step(free, TryFirst(free, info, open, closed, cur, end, k - 1), closed, cur, end, k - 1)
  }

  /** The whole expansion, written out as its eight tries. */
  lemma ExpansionSteps(free: set<Cell>, info: map<Cell, SearchNode>, open: seq<Cell>, closed: seq<Cell>,
                       cur: Cell, end: Cell)
    requires cur in info
    ensures
      var f0 := Frontier(info, open);
      var f1 := Step(free, f0, closed, cur, end, 0);
      var f2 := Step(free, f1, closed, cur, end, 1);
      var f3 := Step(free, f2, closed, cur, end, 2);
      var f4 := Step(free, f3, closed, cur, end, 3);
      var f5 := Step(free, f4, closed, cur, end, 4);
      var f6 := Step(free, f5, closed, cur, end, 5);
      var f7 := Step(free, f6, closed, cur, end, 6);
      TryFirst(free, info, open, closed, cur, end, Moves) == Step(free, f7, closed, cur, end, 7)
  {
  }

  /** The search at the moment the start cell is closed and nothing is open. */
  lemma {:induction false} InitialInv(free: set<Cell>, info: map<Cell, SearchNode>, start: Cell, end: Cell)
    requires start in free && end in free && free <= info.Keys && info[start] == Unvisited
    ensures FrontierInv(free, info, [], [start], start, end)
    ensures ExpandedUpTo(free, [], [start], 0)
  {
  }

  /** A neighbour that is skipped (blocked, off the map or already listed)
      leaves it listed-or-blocked, so one more neighbour counts as done. */
  lemma SkipKeepsInv(free: set<Cell>, open: seq<Cell>, closed: seq<Cell>, cur: Cell, m: nat)
    requires m < Moves && ExpandedBy(free, open, closed, cur, m)
    requires Neighbours(cur)[m] !in free || Neighbours(cur)[m] in open || Neighbours(cur)[m] in closed
    ensures ExpandedBy(free, open, closed, cur, m + 1)
  {
  }

  /** Opening the m-th neighbour c of the current cell, the last closed one,
      keeps the invariant and the expansion progress. */
  lemma {:induction false} OpenKeepsInv(free: set<Cell>, info: map<Cell, SearchNode>, open: seq<Cell>, closed: seq<Cell>,
                                        start: Cell, end: Cell, c: Cell, cost: real, m: nat,
                                        info': map<Cell, SearchNode>, open': seq<Cell>)
    requires FrontierInv(free, info, open, closed, start, end)
    requires ExpandedUpTo(free, open, closed, |closed| - 1)
    requires m < Moves && ExpandedBy(free, open, closed, closed[|closed| - 1], m)
    requires c == Neighbours(closed[|closed| - 1])[m] && cost == StepCost(closed[|closed| - 1], c)
    requires c in free && c !in open && c !in closed
    requires info' == Opened(info, c, closed[|closed| - 1], cost, end) && open' == open + [c]
    ensures FrontierInv(free, info', open', closed, start, end)
    ensures ExpandedUpTo(free, open', closed, |closed| - 1)
    ensures ExpandedBy(free, open', closed, closed[|closed| - 1], m + 1)
  {
    var cur := closed[|closed| - 1];
    NeighboursAreSteps(cur, c);
    assert Linked(info', c, closed, end);
    forall i | 1 <= i < |closed| ensures Linked(info', closed[i], closed[..i], end) {
      assert Linked(info, closed[i], closed[..i], end);
      assert closed[i] != c && info[closed[i]].father.value in closed;
    }
    forall d | d in open ensures Linked(info', d, closed, end) {
      assert Linked(info, d, closed, end);
    }
    forall i | 0 <= i < |closed| - 1 ensures Expanded(free, open', closed, closed[i]) {
      assert Expanded(free, open, closed, closed[i]);
    }
  }

  /** The first k neighbour tries of the last closed cell keep the
      invariant and account for those k neighbours. */
  lemma {:induction false} TryFirstKeepsInv(free: set<Cell>, info: map<Cell, SearchNode>, open: seq<Cell>, closed: seq<Cell>,
                                            start: Cell, end: Cell, k: nat,
                                            info': map<Cell, SearchNode>, open': seq<Cell>)
    requires FrontierInv(free, info, open, closed, start, end)
    requires ExpandedUpTo(free, open, closed, |closed| - 1) && k <= Moves
    requires Frontier(info', open') == TryFirst(free, info, open, closed, closed[|closed| - 1], end, k)
    ensures FrontierInv(free, info', open', closed, start, end)
    ensures ExpandedUpTo(free, open', closed, |closed| - 1)
    ensures ExpandedBy(free, open', closed, closed[|closed| - 1], k)
  {
    var cur := closed[|closed| - 1];
    if k == 0 {
      assert info' == info && open' == open;
    } else {
      var p := TryFirst(free, info, open, closed, cur, end, k - 1);
      TryFirstKeepsInv(free, info, open, closed, start, end, k - 1, p.info, p.open);
      var c := Neighbours(cur)[k - 1];
      if c in free && c !in p.open && c !in closed {
        OpenKeepsInv(free, p.info, p.open, closed, start, end, c, StepCost(cur, c), k - 1, info', open');
      } else {
        assert info' == p.info && open' == p.open;
        SkipKeepsInv(free, p.open, closed, cur, k - 1);
      }
    }
  }

  /** Once all eight neighbours of the last closed cell are accounted for,
      every closed cell is expanded. */
  lemma ExpandedAll(free: set<Cell>, open: seq<Cell>, closed: seq<Cell>)
    requires |closed| >= 1 && ExpandedUpTo(free, open, closed, |closed| - 1)
    requires ExpandedBy(free, open, closed, closed[|closed| - 1], Moves)
    ensures ExpandedUpTo(free, open, closed, |closed|)
  {
    var c := closed[|closed| - 1];
    forall n | IsStep(c, n) && n in free ensures n in open || n in closed {
      NeighboursAreSteps(c, n);
      var j :| 0 <= j < Moves && Neighbours(c)[j] == n;
    }
    assert Expanded(free, open, closed, c);
  }

  /** Moving the open cell at index k to the end of the closed list keeps
      the invariant; every closed cell but the new one stays expanded. */
  lemma {:induction false} CloseKeepsInv(free: set<Cell>, info: map<Cell, SearchNode>, open: seq<Cell>, closed: seq<Cell>,
                                         start: Cell, end: Cell, k: nat, open': seq<Cell>, closed': seq<Cell>)
    requires FrontierInv(free, info, open, closed, start, end)
    requires ExpandedUpTo(free, open, closed, |closed|)
    requires k < |open| && open' == RemoveAt(open, k) && closed' == closed + [open[k]]
    ensures FrontierInv(free, info, open', closed', start, end)
    ensures ExpandedUpTo(free, open', closed', |closed|)
    ensures open[k] != start
  {
    var c := open[k];
    RemoveAtDistinct(open, k);
    assert c in free && c !in closed && Linked(info, c, closed, end);
    assert Distinct(closed');
    forall i | 1 <= i < |closed'| ensures Linked(info, closed'[i], closed'[..i], end) {
      if i < |closed| {
        assert closed'[..i] == closed[..i];
        assert Linked(info, closed[i], closed[..i], end);
      } else {
        assert closed'[..i] == closed;
      }
    }
    forall d | d in open' ensures Linked(info, d, closed', end) {
      assert Linked(info, d, closed, end);
    }
    forall i | 0 <= i < |closed| ensures Expanded(free, open', closed', closed'[i]) {
      assert Expanded(free, open, closed, closed[i]);
    }
  }

  /** When the open list is empty and every closed cell has been expanded,
      the closed cells are all that the start can reach. */
  lemma {:induction false} ExhaustedIsClosedRegion(free: set<Cell>, info: map<Cell, SearchNode>, closed: seq<Cell>,
                                                   start: Cell, end: Cell, target: Cell)
    requires FrontierInv(free, info, [], closed, start, end)
    requires ExpandedUpTo(free, [], closed, |closed|)
    ensures Reachable(free, start, target) ==> target in closed
  {
    if Reachable(free, start, target) {
      var region := set c | c in closed;
      forall c, n | c in region && n in free && IsStep(c, n) ensures n in region {
        var i :| 0 <= i < |closed| && closed[i] == c;
        assert Expanded(free, [], closed, closed[i]);
      }
      var p :| IsWalk(free, p) && p[0] == start && p[|p| - 1] == target;
      WalkStaysInRegion(free, region, p);
      assert p[|p| - 1] in region;
    }
  }
}
