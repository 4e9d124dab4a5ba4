/** The A* pathfinder of src/Pathfinding.hpp. A pool holds one PathNode per
    grid cell; getPath pushes node pointers into an open list that is never
    popped from the front (a cursor walks over it instead), follows the
    parent pointers back from the goal, and finally resets every node it
    touched. A pointer into the pool is modelled by the cell it points to. */
module Pathfinding {
  import opened Util
  import opened Maps
  import opened Regions

  /** PathNode: the parent pointer, the cell's own coordinates, the two
      flags, the position stored at insertion, and the scores. */
  datatype PathNode = PathNode(parent: Option<Cell>, x: nat, y: nat, inOpenList: bool, closed: bool,
                               openListIndex: nat, f: int, g: int, h: int)
  {
    /** The search has reached this node. */
    predicate Opened() {
      inOpenList || closed
    }

    /** Some field that clearOpenList resets is set. */
    predicate Touched() {
      parent.Some? || inOpenList || closed
    }
  }

  /** A pool entry as PathNode() default-constructs it. */
  const DefaultNode := PathNode(None, 0, 0, false, false, 0, 0, 0, 0)

  /** canTraverse(fromX, fromY, toX, toY). */
  type CanTraverse = (nat, nat, nat, nat) -> bool
  /** getTraversalCost(fromX, fromY, toX, toY), a std::uint32_t. */
  type TraversalCost = (nat, nat, nat, nat) -> nat
  /** heuristic(fromX, fromY, toX, toY), a std::uint32_t. */
  type Heuristic = (nat, nat, nat, nat) -> nat

  const Uint32Modulus: nat := 0x1_0000_0000

  /** defaultHeuristic: the Chebyshev distance, cast to std::uint32_t. */
  function DefaultHeuristic(fromX: nat, fromY: nat, toX: nat, toY: nat): (r: nat)
    ensures r < Uint32Modulus
    ensures AbsDiff(fromX, toX) < Uint32Modulus && AbsDiff(fromY, toY) < Uint32Modulus ==>
      r >= AbsDiff(fromX, toX) && r >= AbsDiff(fromY, toY) && (r == AbsDiff(fromX, toX) || r == AbsDiff(fromY, toY))
  {
    Max(AbsDiff(fromX, toX), AbsDiff(fromY, toY)) % Uint32Modulus
  }

  /** The Chebyshev heuristic is zero exactly at the goal and drops by at most
      one per 8-neighbour step, so with step costs of at least one it never
      overestimates. */
  lemma DefaultHeuristicConsistent(ax: nat, ay: nat, bx: nat, bY: nat, goalX: nat, goalY: nat)
    requires ax < Uint32Modulus && ay < Uint32Modulus && bx < Uint32Modulus && bY < Uint32Modulus
    requires goalX < Uint32Modulus && goalY < Uint32Modulus
    requires Around8(ax, ay, bx, bY)
    ensures DefaultHeuristic(ax, ay, goalX, goalY) <= DefaultHeuristic(bx, bY, goalX, goalY) + 1
    ensures DefaultHeuristic(ax, ay, goalX, goalY) == 0 <==> ax == goalX && ay == goalY
  {
  }

  /** from -> to is one step of a path: a move to one of the eight cells
      around from that canTraverse allows. */
  predicate ValidStep(canTraverse: CanTraverse, from: Cell, to: Cell) {
    Around8(from.0, from.1, to.0, to.1) && canTraverse(from.0, from.1, to.0, to.1)
  }

  /** path leads from start to end in valid steps. */
  predicate ValidPath(canTraverse: CanTraverse, path: seq<Cell>, start: Cell, end: Cell) {
    && |path| >= 1 && path[0] == start && path[|path| - 1] == end
    && forall i | 0 <= i < |path| - 1 :: ValidStep(canTraverse, path[i], path[i + 1])
  }

  function Reversed<T>(s: seq<T>): (r: seq<T>)
    ensures |r| == |s| && forall i | 0 <= i < |s| :: r[i] == s[|s| - 1 - i]
  {
    if s == [] then [] else Reversed(s[1..]) + [s[0]]
  }

  // ---------------------------------------------------------------------
  // Invariants of the pool and the open list, on values

  ghost predicate InGrid(pool: Map<PathNode>, c: Cell) {
    c.0 < pool.width && c.1 < pool.height
  }

  ghost predicate OnGrid(pool: Map<PathNode>, openList: seq<Cell>) {
    forall i | 0 <= i < |openList| :: InGrid(pool, openList[i])
  }

  /** Every pool entry knows its own coordinates. */
  ghost predicate Coordinates(pool: Map<PathNode>)
    requires pool.Valid()
  {
    forall x: nat, y: nat | x < pool.width && y < pool.height :: pool.At(x, y).x == x && pool.At(x, y).y == y
  }

  /** No node has a parent or is open or closed. */
  ghost predicate Untouched(pool: Map<PathNode>)
    requires pool.Valid()
  {
    forall x: nat, y: nat | x < pool.width && y < pool.height :: !pool.At(x, y).Touched()
  }

  /** f = g + h on every node: both places that set g set f right after,
      and a default node has all three zero. */
  ghost predicate Scored(pool: Map<PathNode>)
    requires pool.Valid()
  {
    forall x: nat, y: nat | x < pool.width && y < pool.height :: pool.At(x, y).f == pool.At(x, y).g + pool.At(x, y).h
  }

  /** Every entry of the open list lies on the grid and was reached by the
      search, every touched node is an entry, and every open node's stored
      position lies inside the list. */
  ghost predicate Listed(pool: Map<PathNode>, openList: seq<Cell>)
    requires pool.Valid()
  {
    && OnGrid(pool, openList)
    && (forall i | 0 <= i < |openList| :: pool.At(openList[i].0, openList[i].1).Opened())
    && (forall x: nat, y: nat | x < pool.width && y < pool.height && pool.At(x, y).Touched() :: (x, y) in openList)
    && (forall x: nat, y: nat | x < pool.width && y < pool.height && pool.At(x, y).inOpenList ::
          pool.At(x, y).openListIndex < |openList|)
  }

  /** Parent links lead to closed nodes along valid steps, to a node closed
      earlier than any closed child; closed is what rank records. */
  ghost predicate Linked(pool: Map<PathNode>, canTraverse: CanTraverse, rank: map<Cell, nat>, closedCount: nat)
    requires pool.Valid()
  {
    && (forall x: nat, y: nat | x < pool.width && y < pool.height :: pool.At(x, y).closed <==> (x, y) in rank)
    && (forall c | c in rank :: rank[c] < closedCount)
    && forall x: nat, y: nat | x < pool.width && y < pool.height :: ParentLink(pool, canTraverse, rank, x, y)
  }

  /** The parent link of the node at (x, y), if it has one. */
  ghost predicate ParentLink(pool: Map<PathNode>, canTraverse: CanTraverse, rank: map<Cell, nat>, x: nat, y: nat)
    requires pool.Valid() && x < pool.width && y < pool.height
  {
    pool.At(x, y).parent.Some? ==>
      var p := pool.At(x, y).parent.value;
      && InGrid(pool, p) && ValidStep(canTraverse, p, (x, y)) && pool.At(p.0, p.1).closed && p in rank
      && (pool.At(x, y).closed ==> (x, y) in rank && rank[p] < rank[(x, y)])
  }

  /** Only the start node is reached without a parent. */
  ghost predicate Rooted(pool: Map<PathNode>, start: Cell)
    requires pool.Valid() && InGrid(pool, start)
  {
    && pool.At(start.0, start.1).parent.None?
    && forall x: nat, y: nat | x < pool.width && y < pool.height && pool.At(x, y).Opened() && (x, y) != start ::
         pool.At(x, y).parent.Some?
  }

  /** The termination budget: a node leaves unopened when it is first
      opened, a pair (p, n) leaves unrelaxed when p improves n; a pair that
      has left can not improve n again, as n.g <= p.g + cost and p.g no
      longer changes. */
  ghost predicate Budget(pool: Map<PathNode>, cost: TraversalCost, unopened: set<Cell>, unrelaxed: set<(Cell, Cell)>)
    requires pool.Valid()
  {
    && (forall x: nat, y: nat | x < pool.width && y < pool.height && !pool.At(x, y).Opened() :: (x, y) in unopened)
    && forall p: Cell, n: Cell | InGrid(pool, p) && InGrid(pool, n) :: Relaxed(pool, cost, unrelaxed, p, n)
  }

  /** A pair that has left unrelaxed: p is closed, n was reached, and p can
      not improve n. */
  ghost predicate Relaxed(pool: Map<PathNode>, cost: TraversalCost, unrelaxed: set<(Cell, Cell)>, p: Cell, n: Cell)
    requires pool.Valid() && InGrid(pool, p) && InGrid(pool, n)
  {
    (p, n) !in unrelaxed ==>
      && pool.At(p.0, p.1).closed && pool.At(n.0, n.1).Opened()
      && pool.At(n.0, n.1).g <= pool.At(p.0, p.1).g + cost(p.0, p.1, n.0, n.1)
  }

  /** The state at the head of getPath's loop. */
  ghost predicate SearchInv(pool: Map<PathNode>, openList: seq<Cell>, rank: map<Cell, nat>, closedCount: nat,
                            unopened: set<Cell>, unrelaxed: set<(Cell, Cell)>,
                            start: Cell, canTraverse: CanTraverse, cost: TraversalCost)
  {
    && pool.Valid() && Coordinates(pool) && Scored(pool) && InGrid(pool, start)
    && Listed(pool, openList) && Linked(pool, canTraverse, rank, closedCount)
    && Rooted(pool, start) && Budget(pool, cost, unopened, unrelaxed)
  }

  ghost function GridCells(width: nat, height: nat): set<Cell> {
    set x: nat, y: nat | x < width && y < height :: (x, y)
  }

  ghost function GridPairs(width: nat, height: nat): set<(Cell, Cell)> {
    set x1: nat, y1: nat, x2: nat, y2: nat | x1 < width && y1 < height && x2 < width && y2 < height :: ((x1, y1), (x2, y2))
  }

  /** vector::insert of a at position i. */
  function Insert<T>(s: seq<T>, i: nat, a: T): seq<T>
    requires i <= |s|
  {
    s[..i] + [a] + s[i..]
  }

  /** push_back is an insert at the end. */
  lemma AppendIsInsert<T>(s: seq<T>, a: T)
    ensures s + [a] == Insert(s, |s|, a)
  {
    assert s[..|s|] == s;
  }

  /** The two ways getPath puts a newly opened node into the open list: a
      push_back when the insertion point is the end, an insert otherwise.
      Either way the node records the insertion point as its position. */
  method PlaceOpened(openList: seq<Cell>, insertionPoint: nat, adjacent: Cell, adjacentPathNode: PathNode)
    returns (list: seq<Cell>, node: PathNode)
    requires insertionPoint <= |openList|
    ensures list == Insert(openList, insertionPoint, adjacent)
    ensures node == adjacentPathNode.(openListIndex := insertionPoint)
  {
    node := adjacentPathNode;
    if insertionPoint == |openList| {
      node := node.(openListIndex := |openList|);
      AppendIsInsert(openList, adjacent);
      list := openList + [adjacent];
    } else {
      node := node.(openListIndex := insertionPoint);
      list := Insert(openList, insertionPoint, adjacent);
    }
  }

  /** newList is openList with at most a added. */
  ghost predicate GrowsBy<T>(openList: seq<T>, newList: seq<T>, a: T) {
    && |openList| <= |newList| <= |openList| + 1 && a in newList
    && (forall i | 0 <= i < |newList| :: newList[i] == a || newList[i] in openList)
    && (forall b | b in openList :: b in newList)
  }

  lemma GrowsByItself<T>(s: seq<T>, a: T)
    requires a in s
    ensures GrowsBy(s, s, a)
  {
  }

  lemma InsertGrows<T>(s: seq<T>, i: nat, a: T)
    requires i <= |s|
    ensures GrowsBy(s, Insert(s, i, a), a) && |Insert(s, i, a)| == |s| + 1 && Insert(s, i, a)[i] == a
  {
    var t := Insert(s, i, a);
    forall b | b in s
      ensures b in t
    {
      var k :| 0 <= k < |s| && s[k] == b;
      if k < i {
        assert t[k] == b;
      } else {
        assert t[k + 1] == b;
      }
    }
    forall j | 0 <= j < |t|
      ensures t[j] == a || t[j] in s
    {
      if j < i {
        assert t[j] == s[j];
      } else if j > i {
        assert t[j] == s[j - 1];
      }
    }
    assert t[i] == a;
  }

  // ---------------------------------------------------------------------
  // How each step of getPath keeps the invariant

  /** The loop's entry state: the start node alone in the list, every other
      cell still to be opened and every pair still able to relax. */
  lemma StartKeeps(pool: Map<PathNode>, start: Cell, canTraverse: CanTraverse, cost: TraversalCost)
    requires pool.Valid() && Coordinates(pool) && Scored(pool) && Untouched(pool) && InGrid(pool, start)
    ensures SearchInv(pool.Set(start.0, start.1, pool.At(start.0, start.1).(inOpenList := true, openListIndex := 0)), [start],
                      map[], 0, GridCells(pool.width, pool.height) - {start}, GridPairs(pool.width, pool.height),
                      start, canTraverse, cost)
  {
    var after := pool.Set(start.0, start.1, pool.At(start.0, start.1).(inOpenList := true, openListIndex := 0));
    forall x: nat, y: nat | x < pool.width && y < pool.height && !after.At(x, y).Opened()
      ensures (x, y) in GridCells(pool.width, pool.height) - {start}
    {
    }
    forall p: Cell, n: Cell | InGrid(after, p) && InGrid(after, n)
      ensures Relaxed(after, cost, GridPairs(pool.width, pool.height), p, n)
    {
      var x1, y1, x2, y2 := p.0, p.1, n.0, n.1;
      assert ((x1, y1), (x2, y2)) in GridPairs(pool.width, pool.height);
    }
  }

  /** Writing a node that keeps its coordinates and f = g + h. */
  lemma SetKeepsCoordinates(pool: Map<PathNode>, a: Cell, node: PathNode)
    requires pool.Valid() && InGrid(pool, a) && Coordinates(pool) && Scored(pool)
    requires node.x == a.0 && node.y == a.1 && node.f == node.g + node.h
    ensures Coordinates(pool.Set(a.0, a.1, node)) && Scored(pool.Set(a.0, a.1, node))
  {
  }

  /** Writing a reached node whose stored position lies in the new list,
      which differs from the old one at most by a. */
  lemma SetKeepsListed(pool: Map<PathNode>, openList: seq<Cell>, newList: seq<Cell>, a: Cell, node: PathNode)
    requires pool.Valid() && InGrid(pool, a) && Listed(pool, openList)
    requires GrowsBy(openList, newList, a) && node.Opened() && (node.inOpenList ==> node.openListIndex < |newList|)
    ensures Listed(pool.Set(a.0, a.1, node), newList)
  {
    var after := pool.Set(a.0, a.1, node);
    forall i | 0 <= i < |newList|
      ensures InGrid(after, newList[i]) && after.At(newList[i].0, newList[i].1).Opened()
    {
      if newList[i] != a {
        var k :| 0 <= k < |openList| && openList[k] == newList[i];
      }
    }
  }

  /** Writing a node other than the start with a parent, or the start
      without one. */
  lemma SetKeepsRooted(pool: Map<PathNode>, start: Cell, a: Cell, node: PathNode)
    requires pool.Valid() && InGrid(pool, a) && InGrid(pool, start) && Rooted(pool, start)
    requires a == start ==> node.parent.None?
    requires a != start && node.Opened() ==> node.parent.Some?
    ensures Rooted(pool.Set(a.0, a.1, node), start)
  {
  }

  /** Giving a node that is not closed, and so has no children, the closed
      parent current. */
  lemma ParentKeepsLinked(pool: Map<PathNode>, canTraverse: CanTraverse, rank: map<Cell, nat>, closedCount: nat,
                          current: Cell, a: Cell, node: PathNode)
    requires pool.Valid() && InGrid(pool, a) && InGrid(pool, current) && Linked(pool, canTraverse, rank, closedCount)
    requires ValidStep(canTraverse, current, a) && pool.At(current.0, current.1).closed
    requires !pool.At(a.0, a.1).closed && !node.closed && node.parent == Some(current)
    ensures Linked(pool.Set(a.0, a.1, node), canTraverse, rank, closedCount)
  {
    var after := pool.Set(a.0, a.1, node);
    assert current != a;
    forall x: nat, y: nat | x < pool.width && y < pool.height
      ensures ParentLink(after, canTraverse, rank, x, y)
    {
      assert ParentLink(pool, canTraverse, rank, x, y);
    }
  }

  /** Closing current, with the next rank if it was not closed yet. */
  lemma CloseKeepsLinked(pool: Map<PathNode>, canTraverse: CanTraverse, rank: map<Cell, nat>, closedCount: nat,
                         current: Cell)
    requires pool.Valid() && InGrid(pool, current) && Linked(pool, canTraverse, rank, closedCount)
    ensures var node := pool.At(current.0, current.1);
      Linked(pool.Set(current.0, current.1, node.(inOpenList := false, closed := true)), canTraverse,
             if node.closed then rank else rank[current := closedCount],
             if node.closed then closedCount else closedCount + 1)
  {
    var node := pool.At(current.0, current.1);
    var after := pool.Set(current.0, current.1, node.(inOpenList := false, closed := true));
    var rank', count' := if node.closed then rank else rank[current := closedCount], if node.closed then closedCount else closedCount + 1;
    forall x: nat, y: nat | x < pool.width && y < pool.height
      ensures after.At(x, y).closed <==> (x, y) in rank'
    {
    }
    forall x: nat, y: nat | x < pool.width && y < pool.height
      ensures ParentLink(after, canTraverse, rank', x, y)
    {
      assert ParentLink(pool, canTraverse, rank, x, y);
    }
  }

  /** Closing current: closed only grows and no g changes. */
  lemma CloseKeepsBudget(pool: Map<PathNode>, cost: TraversalCost, unopened: set<Cell>, unrelaxed: set<(Cell, Cell)>,
                         current: Cell)
    requires pool.Valid() && InGrid(pool, current) && Budget(pool, cost, unopened, unrelaxed)
    ensures var node := pool.At(current.0, current.1);
      Budget(pool.Set(current.0, current.1, node.(inOpenList := false, closed := true)), cost, unopened, unrelaxed)
  {
    var node := pool.At(current.0, current.1);
    var after := pool.Set(current.0, current.1, node.(inOpenList := false, closed := true));
    forall p: Cell, n: Cell | InGrid(after, p) && InGrid(after, n)
      ensures Relaxed(after, cost, unrelaxed, p, n)
    {
      assert Relaxed(pool, cost, unrelaxed, p, n);
    }
  }

  /** Opening a node the search had not reached: it leaves unopened, and
      no pair that has left unrelaxed involves it. */
  lemma OpenKeepsBudget(pool: Map<PathNode>, cost: TraversalCost, unopened: set<Cell>, unrelaxed: set<(Cell, Cell)>,
                        a: Cell, node: PathNode)
    requires pool.Valid() && InGrid(pool, a) && Budget(pool, cost, unopened, unrelaxed)
    requires !pool.At(a.0, a.1).Opened() && node.Opened() && !node.closed
    ensures a in unopened
    ensures Budget(pool.Set(a.0, a.1, node), cost, unopened - {a}, unrelaxed)
  {
    var after := pool.Set(a.0, a.1, node);
    forall p: Cell, n: Cell | InGrid(after, p) && InGrid(after, n)
      ensures Relaxed(after, cost, unrelaxed, p, n)
    {
      assert Relaxed(pool, cost, unrelaxed, p, n);
      if (p, n) !in unrelaxed {
        assert p != a && n != a;
      }
    }
  }

  /** Lowering a's g to current.g + cost: the pair (current, a) leaves
      unrelaxed, and every other pair that has left still bounds a's g. */
  lemma RelaxKeepsBudget(pool: Map<PathNode>, cost: TraversalCost, unopened: set<Cell>, unrelaxed: set<(Cell, Cell)>,
                         current: Cell, a: Cell, node: PathNode)
    requires pool.Valid() && InGrid(pool, a) && InGrid(pool, current) && Budget(pool, cost, unopened, unrelaxed)
    requires pool.At(current.0, current.1).closed && current != a
    requires pool.At(a.0, a.1).Opened() && !pool.At(a.0, a.1).closed && node.Opened() && !node.closed
    requires node.g == pool.At(current.0, current.1).g + cost(current.0, current.1, a.0, a.1) < pool.At(a.0, a.1).g
    ensures (current, a) in unrelaxed
    ensures Budget(pool.Set(a.0, a.1, node), cost, unopened, unrelaxed - {(current, a)})
  {
    assert Relaxed(pool, cost, unrelaxed, current, a);
    var after := pool.Set(a.0, a.1, node);
    forall p: Cell, n: Cell | InGrid(after, p) && InGrid(after, n)
      ensures Relaxed(after, cost, unrelaxed - {(current, a)}, p, n)
    {
      assert Relaxed(pool, cost, unrelaxed, p, n);
      if (p, n) !in unrelaxed {
        assert p != a;
      }
    }
  }

  /** Taking current from the list: it stops being open and becomes closed,
      and if it was not closed yet it gets the next rank. */
  lemma CloseKeeps(pool: Map<PathNode>, openList: seq<Cell>, rank: map<Cell, nat>, closedCount: nat,
                   unopened: set<Cell>, unrelaxed: set<(Cell, Cell)>,
                   start: Cell, canTraverse: CanTraverse, cost: TraversalCost, current: Cell)
    requires SearchInv(pool, openList, rank, closedCount, unopened, unrelaxed, start, canTraverse, cost)
    requires current in openList
    ensures var node := pool.At(current.0, current.1);
      SearchInv(pool.Set(current.0, current.1, node.(inOpenList := false, closed := true)), openList,
                if node.closed then rank else rank[current := closedCount],
                if node.closed then closedCount else closedCount + 1,
                unopened, unrelaxed, start, canTraverse, cost)
  {
    var k :| 0 <= k < |openList| && openList[k] == current;
    var node := pool.At(current.0, current.1);
    var closedNode := node.(inOpenList := false, closed := true);
    SetKeepsCoordinates(pool, current, closedNode);
    SetKeepsListed(pool, openList, openList, current, closedNode);
    SetKeepsRooted(pool, start, current, closedNode);
    CloseKeepsLinked(pool, canTraverse, rank, closedCount, current);
    CloseKeepsBudget(pool, cost, unopened, unrelaxed, current);
  }

  /** Opening a node the search had not reached, with current as its
      parent: the invariant holds again and one cell has left unopened. */
  lemma OpenKeeps(pool: Map<PathNode>, openList: seq<Cell>, rank: map<Cell, nat>, closedCount: nat,
                  unopened: set<Cell>, unrelaxed: set<(Cell, Cell)>,
                  start: Cell, canTraverse: CanTraverse, cost: TraversalCost,
                  current: Cell, adjacent: Cell, node: PathNode, newList: seq<Cell>)
    requires SearchInv(pool, openList, rank, closedCount, unopened, unrelaxed, start, canTraverse, cost)
    requires InGrid(pool, current) && InGrid(pool, adjacent) && ValidStep(canTraverse, current, adjacent)
    requires pool.At(current.0, current.1).closed && pool.At(start.0, start.1).closed
    requires !pool.At(adjacent.0, adjacent.1).Opened()
    requires node.parent == Some(current) && node.x == adjacent.0 && node.y == adjacent.1
    requires node.inOpenList && !node.closed && node.f == node.g + node.h
    requires GrowsBy(openList, newList, adjacent) && node.openListIndex < |newList|
    ensures adjacent in unopened
    ensures SearchInv(pool.Set(adjacent.0, adjacent.1, node), newList, rank, closedCount,
                      unopened - {adjacent}, unrelaxed, start, canTraverse, cost)
  {
    SetKeepsCoordinates(pool, adjacent, node);
    SetKeepsListed(pool, openList, newList, adjacent, node);
    SetKeepsRooted(pool, start, adjacent, node);
    ParentKeepsLinked(pool, canTraverse, rank, closedCount, current, adjacent, node);
    OpenKeepsBudget(pool, cost, unopened, unrelaxed, adjacent, node);
  }

  /** Lowering the g of an open node through current: the invariant holds
      again and the pair (current, adjacent) has left unrelaxed. */
  lemma RelaxKeeps(pool: Map<PathNode>, openList: seq<Cell>, rank: map<Cell, nat>, closedCount: nat,
                   unopened: set<Cell>, unrelaxed: set<(Cell, Cell)>,
                   start: Cell, canTraverse: CanTraverse, cost: TraversalCost,
                   current: Cell, adjacent: Cell, node: PathNode, newList: seq<Cell>)
    requires SearchInv(pool, openList, rank, closedCount, unopened, unrelaxed, start, canTraverse, cost)
    requires InGrid(pool, current) && InGrid(pool, adjacent) && ValidStep(canTraverse, current, adjacent)
    requires pool.At(current.0, current.1).closed && pool.At(start.0, start.1).closed
    requires pool.At(adjacent.0, adjacent.1).inOpenList && !pool.At(adjacent.0, adjacent.1).closed
    requires node.parent == Some(current) && node.x == adjacent.0 && node.y == adjacent.1
    requires node.inOpenList && !node.closed && node.f == node.g + node.h
    requires node.g == pool.At(current.0, current.1).g + cost(current.0, current.1, adjacent.0, adjacent.1)
    requires node.g < pool.At(adjacent.0, adjacent.1).g
    requires GrowsBy(openList, newList, adjacent) && node.openListIndex < |newList|
    ensures (current, adjacent) in unrelaxed
    ensures SearchInv(pool.Set(adjacent.0, adjacent.1, node), newList, rank, closedCount,
                      unopened, unrelaxed - {(current, adjacent)}, start, canTraverse, cost)
  {
    SetKeepsCoordinates(pool, adjacent, node);
    SetKeepsListed(pool, openList, newList, adjacent, node);
    SetKeepsRooted(pool, start, adjacent, node);
    ParentKeepsLinked(pool, canTraverse, rank, closedCount, current, adjacent, node);
    RelaxKeepsBudget(pool, cost, unopened, unrelaxed, current, adjacent, node);
  }

  /** Inserting one more entry for an open node and storing its position:
      nothing the other invariants read changes. */
  lemma ReindexKeeps(pool: Map<PathNode>, openList: seq<Cell>, rank: map<Cell, nat>, closedCount: nat,
                     unopened: set<Cell>, unrelaxed: set<(Cell, Cell)>,
                     start: Cell, canTraverse: CanTraverse, cost: TraversalCost, a: Cell, i: nat)
    requires SearchInv(pool, openList, rank, closedCount, unopened, unrelaxed, start, canTraverse, cost)
    requires InGrid(pool, a) && pool.At(a.0, a.1).inOpenList && i <= |openList|
    ensures SearchInv(pool.Set(a.0, a.1, pool.At(a.0, a.1).(openListIndex := i)), Insert(openList, i, a), rank, closedCount,
                      unopened, unrelaxed, start, canTraverse, cost)
  {
    var node := pool.At(a.0, a.1).(openListIndex := i);
    var after := pool.Set(a.0, a.1, node);
    InsertGrows(openList, i, a);
    SetKeepsCoordinates(pool, a, node);
    SetKeepsListed(pool, openList, Insert(openList, i, a), a, node);
    SetKeepsRooted(pool, start, a, node);
    ReindexKeepsLinked(pool, canTraverse, rank, closedCount, a, i);
    ReindexKeepsBudget(pool, cost, unopened, unrelaxed, a, i);
  }

  lemma ReindexKeepsLinked(pool: Map<PathNode>, canTraverse: CanTraverse, rank: map<Cell, nat>, closedCount: nat, a: Cell, i: nat)
    requires pool.Valid() && InGrid(pool, a) && Linked(pool, canTraverse, rank, closedCount)
    ensures Linked(pool.Set(a.0, a.1, pool.At(a.0, a.1).(openListIndex := i)), canTraverse, rank, closedCount)
  {
    var after := pool.Set(a.0, a.1, pool.At(a.0, a.1).(openListIndex := i));
    forall x: nat, y: nat | x < pool.width && y < pool.height
      ensures ParentLink(after, canTraverse, rank, x, y)
    {
      assert ParentLink(pool, canTraverse, rank, x, y);
    }
  }

  lemma ReindexKeepsBudget(pool: Map<PathNode>, cost: TraversalCost, unopened: set<Cell>, unrelaxed: set<(Cell, Cell)>, a: Cell, i: nat)
    requires pool.Valid() && InGrid(pool, a) && Budget(pool, cost, unopened, unrelaxed)
    ensures Budget(pool.Set(a.0, a.1, pool.At(a.0, a.1).(openListIndex := i)), cost, unopened, unrelaxed)
  {
    var after := pool.Set(a.0, a.1, pool.At(a.0, a.1).(openListIndex := i));
    forall p: Cell, n: Cell | InGrid(after, p) && InGrid(after, n)
      ensures Relaxed(after, cost, unrelaxed, p, n)
    {
      assert Relaxed(pool, cost, unrelaxed, p, n);
    }
  }

  /** A node after clearOpenList. */
  function Cleared(node: PathNode): (r: PathNode)
    ensures !r.Touched()
    ensures r.x == node.x && r.y == node.y && r.f == node.f && r.g == node.g && r.h == node.h
  {
    node.(parent := None, inOpenList := false, closed := false)
  }

  /** cleared is pool with every node at a cell of `cells` cleared. */
  ghost predicate ClearedAt(pool: Map<PathNode>, cells: seq<Cell>, cleared: Map<PathNode>)
    requires pool.Valid()
  {
    && cleared.Valid() && cleared.width == pool.width && cleared.height == pool.height
    && forall x: nat, y: nat | x < pool.width && y < pool.height ::
         cleared.At(x, y) == if (x, y) in cells then Cleared(pool.At(x, y)) else pool.At(x, y)
  }

  /** Clearing one more node. */
  lemma ClearStep(pool: Map<PathNode>, cells: seq<Cell>, cleared: Map<PathNode>, c: Cell)
    requires pool.Valid() && ClearedAt(pool, cells, cleared) && InGrid(pool, c)
    ensures ClearedAt(pool, cells + [c], cleared.Set(c.0, c.1, Cleared(cleared.At(c.0, c.1))))
  {
    var next := cleared.Set(c.0, c.1, Cleared(cleared.At(c.0, c.1)));
    forall x: nat, y: nat | x < pool.width && y < pool.height
      ensures next.At(x, y) == if (x, y) in cells + [c] then Cleared(pool.At(x, y)) else pool.At(x, y)
    {
      assert (x, y) in cells + [c] <==> (x, y) in cells || (x, y) == c;
    }
  }

  /** Clearing every listed node leaves the pool untouched when every
      touched node is listed. */
  lemma ClearedIsIdle(pool: Map<PathNode>, openList: seq<Cell>, cleared: Map<PathNode>)
    requires pool.Valid() && Listed(pool, openList) && Scored(pool) && ClearedAt(pool, openList, cleared)
    ensures Untouched(cleared) && Scored(cleared)
  {
  }

  function FOf(pool: Map<PathNode>, c: Cell): int
    requires pool.Valid() && InGrid(pool, c)
  {
    pool.At(c.0, c.1).f
  }

  ghost predicate SortedByF(pool: Map<PathNode>, openList: seq<Cell>, from: nat)
    requires pool.Valid() && OnGrid(pool, openList)
  {
    forall i, j | from <= i <= j < |openList| :: FOf(pool, openList[i]) <= FOf(pool, openList[j])
  }

  // ---------------------------------------------------------------------
  // The pathfinder

  class Pathfinder {
    var width: nat
    var height: nat
    var pathNodeMap: Map<PathNode>
    var openList: seq<Cell>

    // Bookkeeping of the running getPath call, for the proofs only.
    ghost var rank: map<Cell, nat>
    ghost var closedCount: nat
    ghost var unopened: set<Cell>
    ghost var unrelaxed: set<(Cell, Cell)>

    ghost predicate Valid()
      reads this
    {
      pathNodeMap.Valid() && pathNodeMap.width == width && pathNodeMap.height == height && Coordinates(pathNodeMap)
    }

    /** The pool between two getPath calls. */
    ghost predicate Idle()
      reads this
    {
      Valid() && openList == [] && Untouched(pathNodeMap) && Scored(pathNodeMap)
    }

    /** The search state at the head of getPath's loop. */
    ghost predicate Searching(start: Cell, canTraverse: CanTraverse, cost: TraversalCost)
      reads this
    {
      Valid() && SearchInv(pathNodeMap, openList, rank, closedCount, unopened, unrelaxed, start, canTraverse, cost)
    }

    ghost function Measure(): nat
      reads this
    {
      |unopened| + |unrelaxed| + |openList|
    }

    /** Pathfinder(width, height): width * height default nodes, each then
        given its coordinates. */
    constructor(width: nat, height: nat)
      ensures this.width == width && this.height == height && Idle()
    {
      this.width := width;
      this.height := height;
      var pool := Create(width, height, DefaultNode);
      var y := 0;
      while y < height
        invariant y <= height
        invariant pool.Valid() && pool.width == width && pool.height == height
        invariant forall i: nat, j: nat | i < width && j < height ::
          pool.At(i, j) == if j < y then DefaultNode.(x := i, y := j) else DefaultNode
      {
        var x := 0;
        while x < width
          invariant x <= width
          invariant pool.Valid() && pool.width == width && pool.height == height
          invariant forall i: nat, j: nat | i < width && j < height ::
            pool.At(i, j) == if RowMajorBefore(i, j, x, y) then DefaultNode.(x := i, y := j) else DefaultNode
        {
          pool := pool.Set(x, y, pool.At(x, y).(x := x, y := y));
          x := x + 1;
        }
        y := y + 1;
      }
      pathNodeMap := pool;
      openList := [];
    }

    /** getPath: an A* search from (startX, startY) to (endX, endY). A
        returned path leads from the start to the end in steps canTraverse
        allows; an exhausted open list gives the empty path; afterwards the
        pool is idle again. */
    method GetPath(startX: nat, startY: nat, endX: nat, endY: nat,
                   canTraverse: CanTraverse, getTraversalCost: TraversalCost, heuristic: Heuristic)
      returns (path: seq<Cell>)
      requires Idle() && startX < width && startY < height && endX < width && endY < height
      modifies this
      ensures Idle() && width == old(width) && height == old(height)
      ensures path == [] || ValidPath(canTraverse, path, (startX, startY), (endX, endY))
      ensures (startX, startY) == (endX, endY) ==> path == [(startX, startY)]
    {
      var success := false;
      var start, end := (startX, startY), (endX, endY);
      // m_openList.reserve only sets the capacity.
      OpenStart(start, canTraverse, getTraversalCost);
      var openListStartingPosition := 0;
      while openListStartingPosition < |openList|
        invariant Searching(start, canTraverse, getTraversalCost)
        invariant width == old(width) && height == old(height)
        invariant openListStartingPosition <= |openList|
        invariant openListStartingPosition == 0 ==> openList == [start]
        invariant openListStartingPosition > 0 ==> pathNodeMap.At(start.0, start.1).closed
        invariant start == end ==> openListStartingPosition == 0
        decreases Measure() - openListStartingPosition
      {
        var current := openList[openListStartingPosition];
        openListStartingPosition := openListStartingPosition + 1;
        CloseNode(current, start, canTraverse, getTraversalCost);
        var smallestFPathNode, endPathNode := pathNodeMap.At(current.0, current.1), pathNodeMap.At(end.0, end.1);
        if smallestFPathNode.x == endPathNode.x && smallestFPathNode.y == endPathNode.y {
          success := true;
          break;
        }
        Expand(current, end, openListStartingPosition, start, canTraverse, getTraversalCost, heuristic);
      }
      if success {
        path := ReconstructPath(end, start, canTraverse, getTraversalCost);
      } else {
        path := [];
      }
      ghost var pool, list := pathNodeMap, openList;
      ClearOpenList();
      ClearedIsIdle(pool, list, pathNodeMap);
    }

    /** The first entry of the open list: the start node, open at
        position 0. */
    method OpenStart(start: Cell, ghost canTraverse: CanTraverse, ghost cost: TraversalCost)
      requires Idle() && InGrid(pathNodeMap, start)
      modifies this
      ensures Searching(start, canTraverse, cost) && openList == [start]
      ensures width == old(width) && height == old(height)
    {
      StartKeeps(pathNodeMap, start, canTraverse, cost);
      openList := openList + [start];
      var startPathNode := pathNodeMap.At(start.0, start.1);
      pathNodeMap := pathNodeMap.Set(start.0, start.1, startPathNode.(inOpenList := true, openListIndex := 0));
      rank, closedCount := map[], 0;
      unopened := GridCells(width, height) - {start};
      unrelaxed := GridPairs(width, height);
    }

    /** Taking the node at current from the open list: it is no longer open
        and is closed. */
    method CloseNode(current: Cell, ghost start: Cell, ghost canTraverse: CanTraverse, ghost cost: TraversalCost)
      requires Searching(start, canTraverse, cost) && current in openList
      modifies this
      ensures Searching(start, canTraverse, cost) && openList == old(openList) && Measure() == old(Measure())
      ensures width == old(width) && height == old(height)
      ensures pathNodeMap == old(pathNodeMap).Set(current.0, current.1, old(pathNodeMap).At(current.0, current.1).(inOpenList := false, closed := true))
    {
      CloseKeeps(pathNodeMap, openList, rank, closedCount, unopened, unrelaxed, start, canTraverse, cost, current);
      var smallestFPathNode := pathNodeMap.At(current.0, current.1);
      if !smallestFPathNode.closed {
        rank := rank[current := closedCount];
        closedCount := closedCount + 1;
      }
      pathNodeMap := pathNodeMap.Set(current.0, current.1, smallestFPathNode.(inOpenList := false, closed := true));
    }

    /** The eight handleAdjacentPathNode calls for the in-bounds cells
        around current: the row above, the row below, then left and right. */
    method Expand(current: Cell, end: Cell, cursor: nat, ghost start: Cell,
                  canTraverse: CanTraverse, cost: TraversalCost, heuristic: Heuristic)
      requires Searching(start, canTraverse, cost) && InGrid(pathNodeMap, current)
      requires pathNodeMap.At(current.0, current.1).closed && pathNodeMap.At(start.0, start.1).closed
      requires cursor <= |openList|
      modifies this
      ensures Searching(start, canTraverse, cost) && Measure() <= old(Measure()) && old(|openList|) <= |openList|
      ensures width == old(width) && height == old(height)
      ensures pathNodeMap.At(start.0, start.1).closed
    {
      var smallestFPathNode := pathNodeMap.At(current.0, current.1);
      var x, y := smallestFPathNode.x, smallestFPathNode.y;
      assert x == current.0 && y == current.1;
      if y > 0 {
        ExpandRow(current, y - 1, end, cursor, start, canTraverse, cost, heuristic);
      }
      if y < height - 1 {
        ExpandRow(current, y + 1, end, cursor, start, canTraverse, cost, heuristic);
      }
      if x > 0 {
        HandleAdjacent(current, (x - 1, y), end, cursor, start, canTraverse, cost, heuristic);
      }
      if x < width - 1 {
        HandleAdjacent(current, (x + 1, y), end, cursor, start, canTraverse, cost, heuristic);
      }
    }

    /** The calls for the row above or below current: straight, then the
        left and the right diagonal. */
    method ExpandRow(current: Cell, row: nat, end: Cell, cursor: nat, ghost start: Cell,
                     canTraverse: CanTraverse, cost: TraversalCost, heuristic: Heuristic)
      requires Searching(start, canTraverse, cost) && InGrid(pathNodeMap, current) && row < height
      requires row + 1 == current.1 || row == current.1 + 1
      requires pathNodeMap.At(current.0, current.1).closed && pathNodeMap.At(start.0, start.1).closed
      requires cursor <= |openList|
      modifies this
      ensures Searching(start, canTraverse, cost) && Measure() <= old(Measure()) && old(|openList|) <= |openList|
      ensures width == old(width) && height == old(height)
      ensures pathNodeMap.At(current.0, current.1).closed && pathNodeMap.At(start.0, start.1).closed
    {
      var smallestFPathNode := pathNodeMap.At(current.0, current.1);
      var x := smallestFPathNode.x;
      assert x == current.0;
      HandleAdjacent(current, (x, row), end, cursor, start, canTraverse, cost, heuristic);
      if x > 0 {
        HandleAdjacent(current, (x - 1, row), end, cursor, start, canTraverse, cost, heuristic);
      }
      if x < width - 1 {
        HandleAdjacent(current, (x + 1, row), end, cursor, start, canTraverse, cost, heuristic);
      }
    }

    /** handleAdjacentPathNode: a closed or untraversable neighbour is
        skipped, a new one is opened, an open one whose g improves is
        relaxed. Only the neighbour's node changes, and only if it was not
        closed. */
    method HandleAdjacent(current: Cell, adjacent: Cell, end: Cell, cursor: nat, ghost start: Cell,
                          canTraverse: CanTraverse, cost: TraversalCost, heuristic: Heuristic)
      requires Searching(start, canTraverse, cost) && InGrid(pathNodeMap, current) && InGrid(pathNodeMap, adjacent)
      requires Around8(current.0, current.1, adjacent.0, adjacent.1)
      requires pathNodeMap.At(current.0, current.1).closed && pathNodeMap.At(start.0, start.1).closed
      requires cursor <= |openList|
      modifies this
      ensures Searching(start, canTraverse, cost) && Measure() <= old(Measure()) && old(|openList|) <= |openList|
      ensures width == old(width) && height == old(height)
      ensures pathNodeMap == old(pathNodeMap) ||
        (!old(pathNodeMap).At(adjacent.0, adjacent.1).closed &&
         pathNodeMap == old(pathNodeMap).Set(adjacent.0, adjacent.1, pathNodeMap.At(adjacent.0, adjacent.1)))
      ensures pathNodeMap.At(current.0, current.1).closed && pathNodeMap.At(start.0, start.1).closed
    {
      var adjacentPathNode := pathNodeMap.At(adjacent.0, adjacent.1);
      if adjacentPathNode.closed || !canTraverse(current.0, current.1, adjacent.0, adjacent.1) {
        return;
      }
      var tempG := pathNodeMap.At(current.0, current.1).g + cost(current.0, current.1, adjacent.0, adjacent.1);
      if !adjacentPathNode.inOpenList {
        OpenAdjacent(current, adjacent, end, cursor, tempG, start, canTraverse, cost, heuristic);
      } else if tempG < adjacentPathNode.g {
        RelaxAdjacent(current, adjacent, cursor, tempG, start, canTraverse, cost);
      }
    }

    /** A neighbour reached for the first time: parent, g, h and f are set,
        and it is inserted at the upper bound of its f among the entries
        not yet taken, its position stored in the node. */
    method OpenAdjacent(current: Cell, adjacent: Cell, end: Cell, cursor: nat, tempG: int, ghost start: Cell,
                        canTraverse: CanTraverse, cost: TraversalCost, heuristic: Heuristic)
      requires Searching(start, canTraverse, cost) && InGrid(pathNodeMap, current) && InGrid(pathNodeMap, adjacent)
      requires ValidStep(canTraverse, current, adjacent)
      requires pathNodeMap.At(current.0, current.1).closed && pathNodeMap.At(start.0, start.1).closed
      requires !pathNodeMap.At(adjacent.0, adjacent.1).Opened()
      requires tempG == pathNodeMap.At(current.0, current.1).g + cost(current.0, current.1, adjacent.0, adjacent.1)
      requires cursor <= |openList|
      modifies this
      ensures Searching(start, canTraverse, cost) && Measure() == old(Measure()) && |openList| == old(|openList|) + 1
      ensures width == old(width) && height == old(height)
      ensures pathNodeMap == old(pathNodeMap).Set(adjacent.0, adjacent.1, pathNodeMap.At(adjacent.0, adjacent.1))
      ensures var node := pathNodeMap.At(adjacent.0, adjacent.1);
        && node.parent == Some(current) && node.g == tempG && node.f == node.g + node.h
        && node.h == heuristic(adjacent.0, adjacent.1, end.0, end.1)
        && node.inOpenList && cursor <= node.openListIndex < |openList| && openList[node.openListIndex] == adjacent
    {
      var adjacentPathNode := pathNodeMap.At(adjacent.0, adjacent.1);
      var h := heuristic(adjacent.0, adjacent.1, end.0, end.1);
      adjacentPathNode := adjacentPathNode.(parent := Some(current), g := tempG, h := h, f := tempG + h, inOpenList := true);
      // adjacent is not in the list yet, so its own f plays no part in the search.
      var insertionPoint := UpperBound(cursor, adjacentPathNode.f);
      InsertOpened(current, adjacent, adjacentPathNode, insertionPoint, start, canTraverse, cost);
    }

    /** The insertion of a newly opened node at insertionPoint: a push_back
        when that is the end of the list, an insert otherwise; either way
        the node stores insertionPoint as its position. */
    method InsertOpened(current: Cell, adjacent: Cell, adjacentPathNode: PathNode, insertionPoint: nat,
                        ghost start: Cell, ghost canTraverse: CanTraverse, ghost cost: TraversalCost)
      requires Searching(start, canTraverse, cost) && InGrid(pathNodeMap, current) && InGrid(pathNodeMap, adjacent)
      requires ValidStep(canTraverse, current, adjacent)
      requires pathNodeMap.At(current.0, current.1).closed && pathNodeMap.At(start.0, start.1).closed
      requires !pathNodeMap.At(adjacent.0, adjacent.1).Opened()
      requires adjacentPathNode.parent == Some(current) && adjacentPathNode.x == adjacent.0 && adjacentPathNode.y == adjacent.1
      requires adjacentPathNode.inOpenList && !adjacentPathNode.closed && adjacentPathNode.f == adjacentPathNode.g + adjacentPathNode.h
      requires insertionPoint <= |openList|
      modifies this
      ensures Searching(start, canTraverse, cost) && Measure() == old(Measure()) && |openList| == old(|openList|) + 1
      ensures width == old(width) && height == old(height)
      ensures pathNodeMap == old(pathNodeMap).Set(adjacent.0, adjacent.1, adjacentPathNode.(openListIndex := insertionPoint))
      ensures openList == Insert(old(openList), insertionPoint, adjacent)
    {
      InsertGrows(openList, insertionPoint, adjacent);
      var list, node := PlaceOpened(openList, insertionPoint, adjacent, adjacentPathNode);
      OpenKeeps(pathNodeMap, openList, rank, closedCount, unopened, unrelaxed, start, canTraverse, cost,
                current, adjacent, node, list);
      var pool, rest := pathNodeMap.Set(adjacent.0, adjacent.1, node), unopened - {adjacent};
      assert |rest| + 1 == |unopened|;
      pathNodeMap, openList, unopened := pool, list, rest;
      assert SearchInv(pathNodeMap, openList, rank, closedCount, unopened, unrelaxed, start, canTraverse, cost);
    }

    /** An open neighbour whose g improves: parent, g and f are updated and,
        if the downward scan stops below its stored position, a second entry
        for it is inserted there (the first one stays in the list). */
    method RelaxAdjacent(current: Cell, adjacent: Cell, cursor: nat, tempG: int, ghost start: Cell,
                         canTraverse: CanTraverse, cost: TraversalCost)
      requires Searching(start, canTraverse, cost) && InGrid(pathNodeMap, current) && InGrid(pathNodeMap, adjacent)
      requires ValidStep(canTraverse, current, adjacent)
      requires pathNodeMap.At(current.0, current.1).closed && pathNodeMap.At(start.0, start.1).closed
      requires pathNodeMap.At(adjacent.0, adjacent.1).inOpenList && !pathNodeMap.At(adjacent.0, adjacent.1).closed
      requires tempG == pathNodeMap.At(current.0, current.1).g + cost(current.0, current.1, adjacent.0, adjacent.1)
      requires tempG < pathNodeMap.At(adjacent.0, adjacent.1).g
      requires cursor <= |openList|
      modifies this
      ensures Searching(start, canTraverse, cost) && Measure() <= old(Measure()) && old(|openList|) <= |openList|
      ensures width == old(width) && height == old(height)
      ensures pathNodeMap == old(pathNodeMap).Set(adjacent.0, adjacent.1, pathNodeMap.At(adjacent.0, adjacent.1))
      ensures var node := pathNodeMap.At(adjacent.0, adjacent.1);
        && node.parent == Some(current) && node.g == tempG < old(pathNodeMap).At(adjacent.0, adjacent.1).g
        && node.f == node.g + node.h && node.inOpenList
    {
      var adjacentPathNode := pathNodeMap.At(adjacent.0, adjacent.1);
      adjacentPathNode := adjacentPathNode.(parent := Some(current), g := tempG, f := tempG + adjacentPathNode.h);
      GrowsByItself(openList, adjacent);
      RelaxKeeps(pathNodeMap, openList, rank, closedCount, unopened, unrelaxed, start, canTraverse, cost,
                 current, adjacent, adjacentPathNode, openList);
      pathNodeMap := pathNodeMap.Set(adjacent.0, adjacent.1, adjacentPathNode);
      unrelaxed := unrelaxed - {(current, adjacent)};
      assert SearchInv(pathNodeMap, openList, rank, closedCount, unopened, unrelaxed, start, canTraverse, cost);
      var insertionIndex := ScanDown(adjacentPathNode.openListIndex, cursor, adjacentPathNode.f);
      if 0 <= insertionIndex < adjacentPathNode.openListIndex {
        SetTwice(old(pathNodeMap), adjacent.0, adjacent.1, adjacentPathNode, adjacentPathNode.(openListIndex := insertionIndex));
        InsertEntry(adjacent, insertionIndex, start, canTraverse, cost);
      }
    }

    /** The insertion of the relaxation branch: a further entry for
        adjacent at insertionIndex, which becomes its stored position. */
    method InsertEntry(adjacent: Cell, insertionIndex: nat, ghost start: Cell, ghost canTraverse: CanTraverse, ghost cost: TraversalCost)
      requires Searching(start, canTraverse, cost) && InGrid(pathNodeMap, adjacent)
      requires pathNodeMap.At(adjacent.0, adjacent.1).inOpenList && insertionIndex <= |openList|
      modifies this
      ensures Searching(start, canTraverse, cost) && Measure() == old(Measure()) + 1
      ensures width == old(width) && height == old(height)
      ensures pathNodeMap == old(pathNodeMap).Set(adjacent.0, adjacent.1,
        old(pathNodeMap).At(adjacent.0, adjacent.1).(openListIndex := insertionIndex))
      ensures openList == Insert(old(openList), insertionIndex, adjacent)
    {
      ReindexKeeps(pathNodeMap, openList, rank, closedCount, unopened, unrelaxed, start, canTraverse, cost,
                   adjacent, insertionIndex);
      var adjacentPathNode := pathNodeMap.At(adjacent.0, adjacent.1);
      pathNodeMap := pathNodeMap.Set(adjacent.0, adjacent.1, adjacentPathNode.(openListIndex := insertionIndex));
      openList := Insert(openList, insertionIndex, adjacent);
    }

    /** The parent-following loop: from the end node back to the start,
        then reversed. */
    method ReconstructPath(end: Cell, ghost start: Cell, ghost canTraverse: CanTraverse, ghost cost: TraversalCost)
      returns (path: seq<Cell>)
      requires Searching(start, canTraverse, cost) && InGrid(pathNodeMap, end) && pathNodeMap.At(end.0, end.1).closed
      ensures ValidPath(canTraverse, path, start, end)
      ensures end == start ==> path == [start]
    {
      var node := end;
      var endPathNode := pathNodeMap.At(end.0, end.1);
      var mapNodes := [(endPathNode.x, endPathNode.y)];
      while pathNodeMap.At(node.0, node.1).parent.Some?
        invariant InGrid(pathNodeMap, node) && pathNodeMap.At(node.0, node.1).closed && node in rank
        invariant |mapNodes| >= 1 && mapNodes[0] == end && mapNodes[|mapNodes| - 1] == node
        invariant end in rank && (|mapNodes| > 1 ==> rank[node] < rank[end])
        invariant forall i | 0 <= i < |mapNodes| - 1 :: ValidStep(canTraverse, mapNodes[i + 1], mapNodes[i])
        decreases rank[node]
      {
        assert ParentLink(pathNodeMap, canTraverse, rank, node.0, node.1);
        var parent := pathNodeMap.At(node.0, node.1).parent.value;
        var parentPathNode := pathNodeMap.At(parent.0, parent.1);
        mapNodes := mapNodes + [(parentPathNode.x, parentPathNode.y)];
        node := parent;
      }
      path := Reversed(mapNodes);
      assert node == start;
      forall i | 0 <= i < |path| - 1
        ensures ValidStep(canTraverse, path[i], path[i + 1])
      {
        assert path[i] == mapNodes[|mapNodes| - 1 - i] && path[i + 1] == mapNodes[|mapNodes| - 2 - i];
      }
      if end == start {
        assert |path| == 1 && path[0] == start;
      }
    }

    /** clearOpenList: every node the open list points to loses its parent
        and both flags; the list is emptied. */
    method ClearOpenList()
      requires Valid() && OnGrid(pathNodeMap, openList)
      modifies this
      ensures Valid() && openList == [] && width == old(width) && height == old(height)
      ensures ClearedAt(old(pathNodeMap), old(openList), pathNodeMap)
    {
      ghost var pool := pathNodeMap;
      for i := 0 to |openList|
        invariant Valid() && openList == old(openList) && width == old(width) && height == old(height)
        invariant ClearedAt(pool, openList[..i], pathNodeMap)
      {
        var pathNode := openList[i];
        ClearStep(pool, openList[..i], pathNodeMap, pathNode);
        pathNodeMap := pathNodeMap.Set(pathNode.0, pathNode.1, Cleared(pathNodeMap.At(pathNode.0, pathNode.1)));
        PrefixSnoc(openList, i);
      }
      assert openList[..|openList|] == openList;
      openList := [];
    }

    /** std::upper_bound over openList[first..] by f, as libstdc++ writes it
        (a binary search). On a range sorted by f it returns the first
        position whose f exceeds f; otherwise it returns some position in
        the range. */
    method UpperBound(first: nat, f: int) returns (r: nat)
      requires Valid() && first <= |openList| && OnGrid(pathNodeMap, openList)
      ensures first <= r <= |openList|
      ensures SortedByF(pathNodeMap, openList, first) ==>
        && (forall i | first <= i < r :: FOf(pathNodeMap, openList[i]) <= f)
        && (forall i | r <= i < |openList| :: f < FOf(pathNodeMap, openList[i]))
    {
      ghost var sorted := SortedByF(pathNodeMap, openList, first);
      r := first;
      var count: nat := |openList| - first;
      while count > 0
        invariant first <= r && r + count <= |openList|
        invariant sorted ==> forall i | first <= i < r :: FOf(pathNodeMap, openList[i]) <= f
        invariant sorted ==> forall i | r + count <= i < |openList| :: f < FOf(pathNodeMap, openList[i])
      {
        var step := count / 2;
        var it := r + step;
        if !(f < FOf(pathNodeMap, openList[it])) {
          r := it + 1;
          count := count - step - 1;
        } else {
          count := step;
        }
      }
    }

    /** The downward scan of the relaxation branch: from just below index,
        step down while the entry lies at or after the cursor and its f is
        above f. -1 stands for the size_t wrap below 0. */
    method ScanDown(index: nat, cursor: nat, f: int) returns (insertionIndex: int)
      requires Valid() && index <= |openList| && OnGrid(pathNodeMap, openList)
      ensures -1 <= insertionIndex < index
      ensures 0 <= insertionIndex && cursor <= insertionIndex ==> FOf(pathNodeMap, openList[insertionIndex]) <= f
      ensures forall i | insertionIndex < i < index && i >= 0 :: f < FOf(pathNodeMap, openList[i])
    {
      insertionIndex := index;
      while true
        invariant 0 <= insertionIndex <= index
        invariant forall i | insertionIndex <= i < index && i >= 0 :: f < FOf(pathNodeMap, openList[i])
        decreases insertionIndex + 1
      {
        insertionIndex := insertionIndex - 1;
        if !(0 <= insertionIndex && insertionIndex >= cursor) {
          break;
        }
        if FOf(pathNodeMap, openList[insertionIndex]) <= f {
          break;
        }
      }
    }
  }
}
