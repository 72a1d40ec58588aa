/** Grid vocabulary of the A* search: cells, the eight king moves, their
    costs, the Manhattan heuristic, walks through walkable cells, and the
    sequence helpers the search uses (List.RemoveAt, List.Reverse). */
module Grid {

  datatype Option<T> = None | Some(value: T)

  /** A grid cell, by its integer coordinates (column x, row y). */
  datatype Cell = Cell(x: int, y: int)

  /** E_Node_Type: a cell is walkable or a stop (blocked). */
  datatype NodeType = Walk | Stop

  function Abs(n: int): nat
  {
    if n < 0 then -n else n
  }

  /** The cell lies in the rectangle [0, w) x [0, h). */
  predicate InGrid(c: Cell, w: int, h: int)
  {
    0 <= c.x < w && 0 <= c.y < h
  }

  /** b is one of the eight neighbours of a. */
  predicate IsStep(a: Cell, b: Cell)
  {
    a != b && -1 <= b.x - a.x <= 1 && -1 <= b.y - a.y <= 1
  }

  /** The number of neighbours a cell is expanded into. */
  const Moves: nat := 8

  /** The eight neighbours of a, in the order the search expands them:
      upper-left, up, upper-right, left, right, lower-left, down, lower-right. */
  function Neighbours(a: Cell): (ns: seq<Cell>)
    ensures |ns| == Moves
  {
    [Cell(a.x - 1, a.y - 1), Cell(a.x, a.y - 1), Cell(a.x + 1, a.y - 1),
     Cell(a.x - 1, a.y), Cell(a.x + 1, a.y),
     Cell(a.x - 1, a.y + 1), Cell(a.x, a.y + 1), Cell(a.x + 1, a.y + 1)]
  }

  /** The eight expanded cells are exactly the neighbours. */
  lemma NeighboursAreSteps(a: Cell, b: Cell)
    ensures b in Neighbours(a) <==> IsStep(a, b)
  {
    assert b == Cell(b.x, b.y);
  }

  /** The eight neighbours with the cost of the move to each, as the
      search lists them. */
  lemma NeighbourMoves(a: Cell)
    ensures Neighbours(a)[0] == Cell(a.x - 1, a.y - 1) && StepCost(a, Neighbours(a)[0]) == 1.4
    ensures Neighbours(a)[1] == Cell(a.x, a.y - 1) && StepCost(a, Neighbours(a)[1]) == 1.0
    ensures Neighbours(a)[2] == Cell(a.x + 1, a.y - 1) && StepCost(a, Neighbours(a)[2]) == 1.4
    ensures Neighbours(a)[3] == Cell(a.x - 1, a.y) && StepCost(a, Neighbours(a)[3]) == 1.0
    ensures Neighbours(a)[4] == Cell(a.x + 1, a.y) && StepCost(a, Neighbours(a)[4]) == 1.0
    ensures Neighbours(a)[5] == Cell(a.x - 1, a.y + 1) && StepCost(a, Neighbours(a)[5]) == 1.4
    ensures Neighbours(a)[6] == Cell(a.x, a.y + 1) && StepCost(a, Neighbours(a)[6]) == 1.0
    ensures Neighbours(a)[7] == Cell(a.x + 1, a.y + 1) && StepCost(a, Neighbours(a)[7]) == 1.4
  {
  }

  /** Cost of one move: 1.4 for a diagonal move, 1 for a horizontal or
      vertical one; a king move is diagonal exactly when it changes both
      coordinates, that is when its Manhattan length is 2. */
  function StepCost(a: Cell, b: Cell): (c: real)
    ensures c == 1.0 || c == 1.4
    ensures IsStep(a, b) ==> (c == 1.4 <==> Manhattan(a, b) == 2) && (c == 1.0 <==> Manhattan(a, b) == 1)
  {
    if a.x != b.x && a.y != b.y then 1.4 else 1.0
  }

  /** The heuristic h: Manhattan distance between two cells. */
  function Manhattan(a: Cell, b: Cell): (d: nat)
    ensures d == 0 <==> a == b
  {
    Abs(b.x - a.x) + Abs(b.y - a.y)
  }

  /** p is a non-empty walk through `free`, each cell a neighbour of the one before. */
  ghost predicate IsWalk(free: set<Cell>, p: seq<Cell>)
  {
    |p| >= 1 &&
    (forall i | 0 <= i < |p| :: p[i] in free) &&
    (forall i | 0 <= i < |p| - 1 :: IsStep(p[i], p[i + 1]))
  }

  /** There is a walk through `free` from a to b. */
  ghost predicate Reachable(free: set<Cell>, a: Cell, b: Cell)
  {
    exists p :: IsWalk(free, p) && p[0] == a && p[|p| - 1] == b
  }

  /** Every free neighbour of a cell of `region` is in `region` too. */
  ghost predicate ClosedUnderSteps(region: set<Cell>, free: set<Cell>)
  {
    forall c, n | c in region && n in free && IsStep(c, n) :: n in region
  }

  /** Total cost of a walk: the sum of its step costs. */
  function PathCost(p: seq<Cell>): real
  {
    if |p| < 2 then 0.0 else StepCost(p[0], p[1]) + PathCost(p[1..])
  }

  /** A walk that starts in a region closed under steps never leaves it. */
  lemma {:induction false} WalkStaysInRegion(free: set<Cell>, region: set<Cell>, p: seq<Cell>)
    requires IsWalk(free, p) && p[0] in region
    requires ClosedUnderSteps(region, free)
    ensures forall i | 0 <= i < |p| :: p[i] in region
  {
    if |p| > 1 {
      var q := p[..|p| - 1];
      assert IsWalk(free, q) by {
        forall i | 0 <= i < |q| - 1 ensures IsStep(q[i], q[i + 1]) {
          assert q[i] == p[i] && q[i + 1] == p[i + 1];
        }
      }
      WalkStaysInRegion(free, region, q);
      assert p[|p| - 2] == q[|q| - 1];
      assert p[|p| - 1] in region;
      forall i | 0 <= i < |p| ensures p[i] in region {
        if i < |q| { assert p[i] == q[i]; }
      }
    }
  }

  /** A free cell reaches itself by the one-cell walk. */
  lemma SameCellIsReachable(free: set<Cell>, c: Cell)
    requires c in free
    ensures Reachable(free, c, c)
  {
    assert IsWalk(free, [c]);
  }

  /** No element occurs twice. */
  predicate Distinct<T(==)>(s: seq<T>)
  {
    forall i, j | 0 <= i < j < |s| :: s[i] != s[j]
  }

  /** List.RemoveAt: s without its element at index k. */
  function RemoveAt<T>(s: seq<T>, k: nat): (r: seq<T>)
    requires k < |s|
    ensures |r| == |s| - 1
    ensures forall i | 0 <= i < |r| :: r[i] == if i < k then s[i] else s[i + 1]
  {
    s[..k] + s[k + 1..]
  }

  /** Removing one element of a sequence without duplicates removes exactly that value. */
  lemma RemoveAtDistinct<T>(s: seq<T>, k: nat)
    requires k < |s| && Distinct(s)
    ensures Distinct(RemoveAt(s, k))
    ensures forall v :: v in RemoveAt(s, k) <==> v in s && v != s[k]
  {
    var r := RemoveAt(s, k);
    forall v | v in s && v != s[k] ensures v in r {
      var i :| 0 <= i < |s| && s[i] == v;
      if i < k { assert r[i] == v; } else { assert r[i - 1] == v; }
    }
  }

  /** List.Reverse: the elements of s in the opposite order. */
  function Reversed<T>(s: seq<T>): (r: seq<T>)
    ensures |r| == |s|
    ensures forall i | 0 <= i < |s| :: r[i] == s[|s| - 1 - i]
  {
    if s == [] then [] else [s[|s| - 1]] + Reversed(s[..|s| - 1])
  }

  /** Reversing s with x appended puts x first. */
  lemma ReversedAppend<T>(s: seq<T>, x: T)
    ensures Reversed(s + [x]) == [x] + Reversed(s)
  {
    assert (s + [x])[..|s|] == s;
  }

  /** A walk stays a walk, one step more costly, when a neighbouring free
      cell is put in front of it. */
  lemma WalkPrepend(free: set<Cell>, a: Cell, p: seq<Cell>)
    requires IsWalk(free, p) && a in free && IsStep(a, p[0])
    ensures IsWalk(free, [a] + p)
    ensures PathCost([a] + p) == StepCost(a, p[0]) + PathCost(p)
  {
    var q := [a] + p;
    assert q[1..] == p;
    forall i | 0 <= i < |q| - 1 ensures IsStep(q[i], q[i + 1]) {
      if i > 0 {
        assert q[i] == p[i - 1] && q[i + 1] == p[i];
      }
    }
  }

  /** All cells of a w-by-h grid. */
  ghost function AllCells(w: nat, h: nat): set<Cell>
  {
    set x: int, y: int | 0 <= x < w && 0 <= y < h :: Cell(x, y)
  }

  ghost function Column(x: int, h: nat): set<Cell>
  {
    set y: int | 0 <= y < h :: Cell(x, y)
  }

  lemma {:induction false} ColumnCard(x: int, h: nat)
    ensures |Column(x, h)| == h
  {
    if h > 0 {
      ColumnCard(x, h - 1);
      assert Column(x, h) == Column(x, h - 1) + {Cell(x, h - 1)};
    }
  }

  /** A (w+1)-column grid is a w-column grid plus its last column, and the two do not overlap. */
  lemma AllCellsSplit(w: nat, h: nat)
    ensures AllCells(w + 1, h) == AllCells(w, h) + Column(w, h)
    ensures AllCells(w, h) * Column(w, h) == {}
  {
    forall c | c in AllCells(w + 1, h) ensures c in AllCells(w, h) + Column(w, h) {
      if c.x < w {
        assert c in AllCells(w, h);
      } else {
        assert c in Column(w, h);
      }
    }
  }

  lemma SplitArithmetic(w: nat, h: nat)
    ensures (w + 1) * h == w * h + h
  {
  }

  /** A w-by-h grid has exactly w * h cells. */
  lemma {:induction false} AllCellsCard(w: nat, h: nat)
    ensures |AllCells(w, h)| == w * h
  {
    if w > 0 {
      AllCellsCard(w - 1, h);
      ColumnCard(w - 1, h);
      AllCellsSplit(w - 1, h);
      SplitArithmetic(w - 1, h);
    }
  }

  ghost function Elements<T>(s: seq<T>): set<T>
  {
    set v | v in s
  }

  lemma {:induction false} DistinctCard<T>(s: seq<T>)
    requires Distinct(s)
    ensures |Elements(s)| == |s|
  {
    if s != [] {
      var t := s[..|s| - 1];
      assert Distinct(t);
      DistinctCard(t);
      assert Elements(s) == Elements(t) + {s[|s| - 1]};
      assert s[|s| - 1] !in Elements(t);
    }
  }

  lemma SubsetCard<T>(a: set<T>, b: set<T>)
    requires a <= b
    ensures |a| <= |b|
  {
    assert b == a + (b - a);
    assert a * (b - a) == {};
  }

  /** Cells without repetition inside a w-by-h grid number at most w * h. */
  lemma DistinctCellsBound(s: seq<Cell>, w: nat, h: nat)
    requires Distinct(s)
    requires forall c | c in s :: InGrid(c, w, h)
    ensures |s| <= w * h
  {
    DistinctCard(s);
    AllCellsCard(w, h);
    assert Elements(s) <= AllCells(w, h) by {
      forall c | c in Elements(s) ensures c in AllCells(w, h) {
        assert c == Cell(c.x, c.y);
      }
    }
    SubsetCard(Elements(s), AllCells(w, h));
  }
}
