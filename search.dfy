/**
 * `_get_shortest_path`: breadth-first search over the neighbour relation of
 * `ValidNeighbors`, with a deque used as a FIFO queue (`appendleft` to put,
 * `pop` to take) and a parent map filled on first visit.
 *
 * The reasoning is done over a neighbour graph `g` (a function from a cell
 * to the set of cells the filter returns for it); `NeighborGraph` is the
 * graph of a board. The reference for "shortest" is `Layer(g, start, n)`:
 * the cells reachable from `start` in at most `n` neighbour steps.
 */
module Search {
  import opened Grid

  type Graph = Coord -> set<Coord>

  /** The cells of a list, as a set. */
  function Elems(s: seq<Coord>): set<Coord>
  {
    set y | y in s
  }

  /** The neighbour graph of a board: every cell mapped to its filtered neighbours. */
  function NeighborGraph(t: Terrain): Graph
  {
    c => Elems(ValidNeighbors(t, c))
  }

  /** The successors of `x` in `g`. */
  function Succ(g: Graph, x: Coord): set<Coord>
  {
    g(x)
  }

  /** `s` together with every successor of a cell of `s`. */
  ghost function Grow(g: Graph, s: set<Coord>): set<Coord>
  {
    s + set x, y | x in s && y in Succ(g, x) :: y
  }

  /** The cells reachable from `start` in at most `n` neighbour steps. */
  ghost function Layer(g: Graph, start: Coord, n: nat): set<Coord>
  {
    if n == 0 then {start} else Grow(g, Layer(g, start, n - 1))
  }

  ghost predicate Reachable(g: Graph, start: Coord, stop: Coord)
  {
    exists n: nat :: stop in Layer(g, start, n)
  }

  /** No successor of a cell of `s` lies outside `s`. */
  ghost predicate Closed(g: Graph, s: set<Coord>)
  {
    forall x, y :: x in s && y in Succ(g, x) ==> y in s
  }

  /**
   * A bound `d` for the search: `stop` lies within `d` steps, or the cells
   * within `d` steps are all the search can ever reach.
   */
  ghost predicate SearchBound(g: Graph, start: Coord, stop: Coord, d: nat)
  {
    stop in Layer(g, start, d) || Closed(g, Layer(g, start, d))
  }

  /**
   * When the search loop ends: `stop` is reachable, or only finitely many
   * cells are. Under the source's filter the second never happens, so on a
   * board this is reachability of `stop` (`TerminatesIffReachable`).
   */
  ghost predicate CanTerminate(g: Graph, start: Coord, stop: Coord)
  {
    exists d: nat :: SearchBound(g, start, stop, d)
  }

  /** Each cell of `path` is a successor of the one before it (`start` first). */
  ghost predicate Walk(g: Graph, start: Coord, path: seq<Coord>)
    decreases |path|
  {
    path == [] || (path[0] in Succ(g, start) && Walk(g, path[0], path[1..]))
  }

  /** Where a path from `start` ends. */
  function Target(start: Coord, path: seq<Coord>): Coord
  {
    if path == [] then start else path[|path| - 1]
  }

  /**
   * A shortest path in the source's sense: it excludes `start`, ends at
   * `stop`, moves by neighbour steps, and `stop` lies in no nearer layer.
   */
  ghost predicate IsShortestPath(g: Graph, start: Coord, stop: Coord, path: seq<Coord>)
  {
    Walk(g, start, path) && Target(start, path) == stop && start !in path &&
    forall n: nat :: n < |path| ==> stop !in Layer(g, start, n)
  }

  // ---------------------------------------------------------------- layers and walks

  lemma GrowMember(g: Graph, s: set<Coord>, x: Coord, y: Coord)
    requires x in s && y in Succ(g, x)
    ensures y in Grow(g, s)
  {
  }

  /** One neighbour step from layer `n` lands in layer `n + 1`. */
  lemma LayerStep(g: Graph, start: Coord, n: nat, x: Coord, y: Coord)
    requires x in Layer(g, start, n) && y in Succ(g, x)
    ensures y in Layer(g, start, n + 1)
  {
    GrowMember(g, Layer(g, start, n), x, y);
  }

  /** A cell new in layer `n` is a successor of a cell of layer `n - 1`. */
  lemma LayerPredecessor(g: Graph, start: Coord, n: nat, y: Coord) returns (x: Coord)
    requires n > 0 && y in Layer(g, start, n) && y !in Layer(g, start, n - 1)
    ensures x in Layer(g, start, n - 1) && y in Succ(g, x)
  {
    x :| x in Layer(g, start, n - 1) && y in Succ(g, x);
  }

  lemma {:induction false} LayerMonotone(g: Graph, start: Coord, m: nat, n: nat)
    requires m <= n
    ensures Layer(g, start, m) <= Layer(g, start, n)
    decreases n
  {
    if m < n {
      LayerMonotone(g, start, m, n - 1);
    }
  }

  /** Once the cells within `d` steps are closed, no later layer adds a cell. */
  lemma {:induction false} LayerStable(g: Graph, start: Coord, d: nat, m: nat)
    requires Closed(g, Layer(g, start, d))
    ensures Layer(g, start, m) <= Layer(g, start, d)
    decreases m
  {
    if m <= d {
      LayerMonotone(g, start, m, d);
    } else {
      LayerStable(g, start, d, m - 1);
      forall y | y in Layer(g, start, m) ensures y in Layer(g, start, d) {
        if y !in Layer(g, start, m - 1) {
          var x := LayerPredecessor(g, start, m, y);
        }
      }
    }
  }

  /** Extending a walk by a successor of its end gives a walk. */
  lemma {:induction false} WalkSnoc(g: Graph, start: Coord, p: seq<Coord>, x: Coord)
    requires Walk(g, start, p) && x in Succ(g, Target(start, p))
    ensures Walk(g, start, p + [x]) && Target(start, p + [x]) == x
    decreases |p|
  {
    if p != [] {
      assert Target(p[0], p[1..]) == Target(start, p);
      WalkSnoc(g, p[0], p[1..], x);
      assert (p + [x])[1..] == p[1..] + [x];
    }
  }

  /** Dropping the last step of a walk leaves a walk, whose end the last cell succeeds. */
  lemma {:induction false} WalkInit(g: Graph, start: Coord, p: seq<Coord>)
    requires Walk(g, start, p) && p != []
    ensures Walk(g, start, p[..|p| - 1])
    ensures Target(start, p) in Succ(g, Target(start, p[..|p| - 1]))
    decreases |p|
  {
    if |p| > 1 {
      WalkInit(g, p[0], p[1..]);
      assert p[1..][..|p| - 2] == p[..|p| - 1][1..];
      assert Target(p[0], p[1..][..|p| - 2]) == Target(start, p[..|p| - 1]);
    }
  }

  /** A walk of `n` steps ends inside layer `n`. */
  lemma {:induction false} WalkInLayer(g: Graph, start: Coord, path: seq<Coord>)
    requires Walk(g, start, path)
    ensures Target(start, path) in Layer(g, start, |path|)
    decreases |path|
  {
    if path != [] {
      var init := path[..|path| - 1];
      WalkInit(g, start, path);
      WalkInLayer(g, start, init);
      LayerStep(g, start, |init|, Target(start, init), Target(start, path));
    }
  }

  /** Every cell of layer `n` is the end of a walk of at most `n` steps. */
  lemma {:induction false} LayerHasWalk(g: Graph, start: Coord, x: Coord, n: nat)
    returns (path: seq<Coord>)
    requires x in Layer(g, start, n)
    ensures Walk(g, start, path) && Target(start, path) == x && |path| <= n
    decreases n
  {
    if n == 0 {
      path := [];
    } else if x in Layer(g, start, n - 1) {
      path := LayerHasWalk(g, start, x, n - 1);
    } else {
      var z := LayerPredecessor(g, start, n, x);
      var p := LayerHasWalk(g, start, z, n - 1);
      WalkSnoc(g, start, p, x);
      path := p + [x];
    }
  }

  /** Reachability by layers agrees with reachability by walks. */
  lemma ReachableIffWalk(g: Graph, start: Coord, stop: Coord)
    ensures Reachable(g, start, stop) <==>
              exists path :: Walk(g, start, path) && Target(start, path) == stop
  {
    if Reachable(g, start, stop) {
      var n: nat :| stop in Layer(g, start, n);
      var path := LayerHasWalk(g, start, stop, n);
    }
    if exists path :: Walk(g, start, path) && Target(start, path) == stop {
      var path :| Walk(g, start, path) && Target(start, path) == stop;
      WalkInLayer(g, start, path);
    }
  }

  /** No walk from `start` to `stop` is shorter than a shortest path. */
  lemma ShortestIsMinimal(g: Graph, start: Coord, stop: Coord, path: seq<Coord>, other: seq<Coord>)
    requires IsShortestPath(g, start, stop, path)
    requires Walk(g, start, other) && Target(start, other) == stop
    ensures |path| <= |other|
  {
    WalkInLayer(g, start, other);
  }

  // ---------------------------------------------------------------- where the search ends

  /** `g` is the neighbour graph of the terrain `t`. */
  ghost predicate IsNeighborGraph(g: Graph, t: Terrain)
  {
    forall x {:trigger ValidNeighbors(t, x)} :: Succ(g, x) == Elems(ValidNeighbors(t, x))
  }

  /** A non-empty set of cells has a member with no other member beyond it. */
  lemma {:induction false} MaxOf(s: set<Coord>) returns (m: Coord)
    requires s != {}
    ensures m in s && forall x :: x in s ==> !Beyond(x, m)
    decreases |s|
  {
    var x :| x in s;
    if s == {x} {
      m := x;
    } else {
      var m' := MaxOf(s - {x});
      m := if Beyond(x, m') then x else m';
      forall z | z in s ensures !Beyond(z, m) {
        if z != x {
          assert z in s - {x};
        }
      }
    }
  }

  /**
   * Under the source's filter no non-empty set of cells is closed: its
   * member lowest down, then leftmost, has a neighbour beyond it.
   */
  lemma NeverClosed(g: Graph, t: Terrain, s: set<Coord>)
    requires IsNeighborGraph(g, t) && s != {}
    ensures !Closed(g, s)
  {
    var m := MaxOf(s);
    var y := Escape(t, m);
    assert y in Succ(g, m);
  }

  /**
   * Under the source's filter the search ends exactly when `stop` is
   * reachable: otherwise the deque never runs empty.
   */
  lemma TerminatesIffReachable(g: Graph, t: Terrain, start: Coord, stop: Coord)
    requires IsNeighborGraph(g, t)
    ensures CanTerminate(g, start, stop) <==> Reachable(g, start, stop)
  {
    if CanTerminate(g, start, stop) {
      var d: nat :| SearchBound(g, start, stop, d);
      if stop !in Layer(g, start, d) {
        LayerMonotone(g, start, 0, d);
        NeverClosed(g, t, Layer(g, start, d));
      }
    }
    if Reachable(g, start, stop) {
      var n: nat :| stop in Layer(g, start, n);
      assert SearchBound(g, start, stop, n);
    }
  }

  /** From a cell on or below row 0, every cell within `n` steps is on or below row 0. */
  lemma {:induction false} LayerBelowTop(g: Graph, t: Terrain, start: Coord, n: nat)
    requires IsNeighborGraph(g, t) && start.row >= 0
    ensures forall y :: y in Layer(g, start, n) ==> y.row >= 0
    decreases n
  {
    if n > 0 {
      LayerBelowTop(g, t, start, n - 1);
      forall y | y in Layer(g, start, n) ensures y.row >= 0 {
        if y !in Layer(g, start, n - 1) {
          var x := LayerPredecessor(g, start, n, y);
          assert y in Elems(ValidNeighbors(t, x));
          NeighborsStayBelowTop(t, x, y);
        }
      }
    }
  }

  /** A cell above the board is unreachable from a cell on it, so its search never ends. */
  lemma AboveBoardUnreachable(g: Graph, t: Terrain, start: Coord, stop: Coord)
    requires IsNeighborGraph(g, t) && start.row >= 0 && stop.row < 0
    ensures !Reachable(g, start, stop) && !CanTerminate(g, start, stop)
  {
    forall n: nat ensures stop !in Layer(g, start, n) {
      LayerBelowTop(g, t, start, n);
    }
    TerminatesIffReachable(g, t, start, stop);
  }

  /**
   * The cells a search from `(1, 1)` keeps to on the two-by-two board with
   * walls at `(0, 1)` and `(1, 0)`: `(1, 1)` itself, the rows below the
   * board, and row 1 to the right of the board.
   */
  ghost predicate Cornered(c: Coord)
  {
    c == Coord(1, 1) || c.row >= 2 || (c.row == 1 && c.col >= 2)
  }

  /**
   * On that board, a returned neighbour of a cornered cell is cornered:
   * every direction but `up` is, and `up`, which is always tested, is
   * either cornered or removed.
   */
  lemma CorneredStep(t: Terrain, x: Coord, y: Coord)
    requires t == Terrain(2, 2, {Coord(0, 1), Coord(1, 0)})
    requires Cornered(x) && y in ValidNeighbors(t, x)
    ensures Cornered(y)
  {
    NeighborsRule(t, x);
    NeighborsShape(t, x);
    var up := Directions(x)[0];
    if y == up && !Cornered(up) {
      assert Blocked(t, up);
    }
  }

  lemma {:induction false} CorneredLayer(g: Graph, t: Terrain, n: nat)
    requires t == Terrain(2, 2, {Coord(0, 1), Coord(1, 0)}) && IsNeighborGraph(g, t)
    ensures forall y :: y in Layer(g, Coord(1, 1), n) ==> Cornered(y)
    decreases n
  {
    if n > 0 {
      CorneredLayer(g, t, n - 1);
      forall y | y in Layer(g, Coord(1, 1), n) ensures Cornered(y) {
        if y !in Layer(g, Coord(1, 1), n - 1) {
          var x := LayerPredecessor(g, Coord(1, 1), n, y);
          assert y in Elems(ValidNeighbors(t, x));
          CorneredStep(t, x, y);
        }
      }
    }
  }

  /**
   * An unreachable target on the board: on `[[0, 3], [3, 1]]` the seeker at
   * `(1, 1)` cannot reach `(0, 0)`, so a search for it never ends.
   */
  lemma OnBoardUnreachable(b: array2<int>, g: Graph)
    requires b.Length0 == 2 && b.Length1 == 2
    requires b[0, 0] == 0 && b[0, 1] == WALL && b[1, 0] == WALL && b[1, 1] == SELF
    requires IsNeighborGraph(g, TerrainOf(b))
    ensures !Reachable(g, Coord(1, 1), Coord(0, 0)) && !CanTerminate(g, Coord(1, 1), Coord(0, 0))
  {
    var t := TerrainOf(b);
    forall c ensures c in t.walls <==> c in {Coord(0, 1), Coord(1, 0)} {
      if c in t.walls {
        assert c.row == 0 || c.row == 1;
        assert c.col == 0 || c.col == 1;
        assert c == Coord(c.row, c.col);
      }
    }
    assert t == Terrain(2, 2, {Coord(0, 1), Coord(1, 0)});
    forall n: nat ensures Coord(0, 0) !in Layer(g, Coord(1, 1), n) {
      CorneredLayer(g, t, n);
    }
    TerminatesIffReachable(g, t, Coord(1, 1), Coord(0, 0));
  }

  /** The neighbour graph of the filter as its test intends it. */
  function OpenGraph(t: Terrain): Graph
  {
    c => Elems(OpenNeighbors(t, c))
  }

  /** `g` is the neighbour graph of the intended filter on the terrain `t`. */
  ghost predicate IsOpenGraph(g: Graph, t: Terrain)
  {
    forall x {:trigger OpenNeighbors(t, x)} :: Succ(g, x) == Elems(OpenNeighbors(t, x))
  }

  lemma OpenGraphIs(t: Terrain)
    ensures IsOpenGraph(OpenGraph(t), t)
  {
  }

  /** The cells of the board. */
  ghost function BoardCells(t: Terrain): set<Coord>
  {
    set r: int, c: int | 0 <= r < t.rows && 0 <= c < t.cols :: Coord(r, c)
  }

  /** Under the intended filter the search never leaves the board (besides `start`). */
  lemma {:induction false} OpenLayerBounded(g: Graph, t: Terrain, start: Coord, n: nat)
    requires IsOpenGraph(g, t)
    ensures forall y :: y in Layer(g, start, n) ==> y == start || (0 <= y.row < t.rows && 0 <= y.col < t.cols)
    decreases n
  {
    if n > 0 {
      OpenLayerBounded(g, t, start, n - 1);
      forall y | y in Layer(g, start, n) ensures y == start || (0 <= y.row < t.rows && 0 <= y.col < t.cols) {
        if y !in Layer(g, start, n - 1) {
          var x := LayerPredecessor(g, start, n, y);
          assert y in Elems(OpenNeighbors(t, x));
        }
      }
    }
  }

  lemma {:induction false} SubsetCard(a: set<Coord>, b: set<Coord>)
    requires a <= b
    ensures |a| <= |b|
    decreases |a|
  {
    if a != {} {
      var x :| x in a;
      SubsetCard(a - {x}, b - {x});
    }
  }

  /** A layer that is not closed is followed by a larger one. */
  lemma LayerGrows(g: Graph, start: Coord, n: nat)
    requires !Closed(g, Layer(g, start, n))
    ensures |Layer(g, start, n + 1)| >= |Layer(g, start, n)| + 1
  {
    var l0, l1 := Layer(g, start, n), Layer(g, start, n + 1);
    var x, y :| x in l0 && y in Succ(g, x) && y !in l0;
    LayerStep(g, start, n, x, y);
    LayerMonotone(g, start, n, n + 1);
    SubsetCard(l0 + {y}, l1);
  }

  /**
   * Under the intended filter every search ends: every layer that is not
   * closed adds a cell, and the layers stay on the board (besides `start`),
   * so within as many steps as the board has cells some layer is closed.
   */
  lemma OpenSearchEnds(g: Graph, t: Terrain, start: Coord, stop: Coord)
    requires IsOpenGraph(g, t)
    ensures CanTerminate(g, start, stop)
  {
    var cells := BoardCells(t) + {start};
    var n := |cells|;
    var k := 0;
    while k < n && !Closed(g, Layer(g, start, k))
      invariant k <= n && |Layer(g, start, k)| >= k + 1
    {
      LayerGrows(g, start, k);
      k := k + 1;
    }
    if !Closed(g, Layer(g, start, k)) {
      OpenLayerBounded(g, t, start, k);
      forall y | y in Layer(g, start, k) ensures y in cells {
        if y != start {
          assert y == Coord(y.row, y.col);
        }
      }
      SubsetCard(Layer(g, start, k), cells);
      assert false;
    }
    assert SearchBound(g, start, stop, k);
  }

  // ---------------------------------------------------------------- search state

  /** One deque entry: a cell and the cell it was reached from (`None` for `start`). */
  datatype Entry = Entry(loc: Coord, parent: Option<Coord>)

  /**
   * The ghost level of deque slot `i`: the slots below `s` (the newer ones,
   * at the left end) are one level beyond the older ones.
   */
  function SlotLevel(k: nat, s: nat, i: int): nat
  {
    if i < s then k + 1 else k
  }

  /** The parent map is a tree rooted at `start`, one level per step. */
  ghost predicate Tree(g: Graph, start: Coord, parents: map<Coord, Option<Coord>>, level: map<Coord, nat>)
  {
    (forall x :: x in parents <==> x in level) &&
    (parents != map[] ==> start in parents && parents[start] == None && level[start] == 0) &&
    forall x {:trigger parents[x]} :: x in parents ==>
      match parents[x]
      case None => x == start
      case Some(p) => p in parents && x in Succ(g, p) && level[x] == level[p] + 1
  }

  /** Entry `e` was put on the deque at level `lv` by its parent. */
  ghost predicate QueuedAt(g: Graph, start: Coord, level: map<Coord, nat>, e: Entry, lv: nat)
  {
    match e.parent
    case None => e.loc == start && lv == 0
    case Some(p) => p in level && e.loc in Succ(g, p) && lv == level[p] + 1
  }

  ghost predicate QueueOk(g: Graph, start: Coord, level: map<Coord, nat>, q: seq<Entry>, k: nat, s: nat)
  {
    s <= |q| && forall i :: 0 <= i < |q| ==> QueuedAt(g, start, level, q[i], SlotLevel(k, s, i))
  }

  /** `y` waits on the deque at a level of at most `lim`. */
  ghost predicate Waiting(q: seq<Entry>, k: nat, s: nat, y: Coord, lim: nat)
  {
    exists i :: 0 <= i < |q| && q[i].loc == y && SlotLevel(k, s, i) <= lim
  }

  /**
   * Every successor of the visited `x` is visited at most one level further
   * on, or waits on the deque at most one level further on.
   */
  ghost predicate FrontierAt(g: Graph, level: map<Coord, nat>, q: seq<Entry>, k: nat, s: nat, x: Coord)
  {
    x in level && forall y :: y in Succ(g, x) ==> Followed(level, q, k, s, x, y)
  }

  /** The successor `y` of the visited `x` is visited or waiting, at most one level further on. */
  ghost predicate Followed(level: map<Coord, nat>, q: seq<Entry>, k: nat, s: nat, x: Coord, y: Coord)
    requires x in level
  {
    if y in level then level[y] <= level[x] + 1 else Waiting(q, k, s, y, level[x] + 1)
  }

  ghost predicate Frontier(g: Graph, level: map<Coord, nat>, q: seq<Entry>, k: nat, s: nat)
  {
    forall x :: x in level ==> FrontierAt(g, level, q, k, s, x)
  }

  /** No visited cell is beyond the level of the oldest deque entries. */
  ghost predicate Settled(level: map<Coord, nat>, k: nat)
  {
    forall x :: x in level ==> level[x] <= k
  }

  /** The visited cells stay inside layer `d`. */
  ghost predicate Bounded(g: Graph, start: Coord, d: nat, parents: map<Coord, Option<Coord>>)
  {
    forall x :: x in parents ==> x in Layer(g, start, d)
  }

  /** The invariant of the search loop. */
  ghost predicate Inv(g: Graph, start: Coord, stop: Coord, d: nat,
                      parents: map<Coord, Option<Coord>>, level: map<Coord, nat>,
                      q: seq<Entry>, k: nat, s: nat)
  {
    Tree(g, start, parents, level) &&
    QueueOk(g, start, level, q, k, s) &&
    Frontier(g, level, q, k, s) &&
    Settled(level, k) &&
    Bounded(g, start, d, parents) &&
    stop !in parents
  }

  /** The level of the deque after its last entry is taken off. */
  function PopLevel(k: nat, s: nat, n: nat): nat
  {
    if s == n then k + 1 else k
  }

  /** The split of the deque after its last entry is taken off. */
  function PopSplit(s: nat, n: nat): nat
  {
    if s == n then 0 else s
  }

  // ---------------------------------------------------------------- invariant steps

  /** A cell of the tree lies in the layer of its level. */
  lemma {:induction false} TreeReached(g: Graph, start: Coord, parents: map<Coord, Option<Coord>>,
                                       level: map<Coord, nat>, x: Coord)
    requires Tree(g, start, parents, level) && x in parents
    ensures x in Layer(g, start, level[x])
    decreases level[x]
  {
    var p := TreeParent(g, start, parents, level, x);
    if p.Some? {
      TreeReached(g, start, parents, level, p.value);
      LayerStep(g, start, level[p.value], p.value, x);
    }
  }

  /** The tree's record of `x`: its parent, one level nearer, or none for `start`. */
  lemma TreeParent(g: Graph, start: Coord, parents: map<Coord, Option<Coord>>,
                   level: map<Coord, nat>, x: Coord) returns (p: Option<Coord>)
    requires Tree(g, start, parents, level) && x in parents
    ensures p == parents[x]
    ensures p.None? ==> x == start && level[x] == 0
    ensures p.Some? ==> p.value in parents && x in Succ(g, p.value) && level[x] == level[p.value] + 1
  {
    p := parents[x];
  }

  /** Outside the first `lv` layers means outside every nearer layer too. */
  lemma NotNearer(g: Graph, start: Coord, x: Coord, lv: nat)
    requires lv > 0 ==> x !in Layer(g, start, lv - 1)
    ensures forall n: nat :: n < lv ==> x !in Layer(g, start, n)
  {
    forall n: nat | n < lv ensures x !in Layer(g, start, n) {
      LayerMonotone(g, start, n, lv - 1);
    }
  }

  /** `y` has been visited, at a level of at most `n`. */
  ghost predicate Near(level: map<Coord, nat>, y: Coord, n: nat)
  {
    y in level && level[y] <= n
  }

  /**
   * While every queued level is at least `f`, every cell `n < f` steps away
   * has been visited, at a level of at most `n`.
   */
  lemma {:induction false} Closure(g: Graph, start: Coord, level: map<Coord, nat>,
                                   q: seq<Entry>, k: nat, s: nat, f: nat, n: nat)
    requires start in level && level[start] == 0
    requires Frontier(g, level, q, k, s)
    requires forall i :: 0 <= i < |q| ==> f <= SlotLevel(k, s, i)
    requires n < f
    ensures forall y :: y in Layer(g, start, n) ==> Near(level, y, n)
    decreases n
  {
    if n > 0 {
      Closure(g, start, level, q, k, s, f, n - 1);
      forall y | y in Layer(g, start, n) ensures Near(level, y, n) {
        if y !in Layer(g, start, n - 1) {
          var x := LayerPredecessor(g, start, n, y);
          assert FrontierAt(g, level, q, k, s, x);
        }
      }
    }
  }

  /** Taking an entry off the deque: its level, and the rest of the deque. */
  lemma PopQueue(g: Graph, start: Coord, level: map<Coord, nat>, q: seq<Entry>, k: nat, s: nat)
    requires QueueOk(g, start, level, q, k, s) && |q| > 0
    ensures QueuedAt(g, start, level, q[|q| - 1], PopLevel(k, s, |q|))
    ensures QueueOk(g, start, level, q[..|q| - 1], PopLevel(k, s, |q|), PopSplit(s, |q|))
    ensures forall i :: 0 <= i < |q| ==> PopLevel(k, s, |q|) <= SlotLevel(k, s, i)
  {
    var q', k', s' := q[..|q| - 1], PopLevel(k, s, |q|), PopSplit(s, |q|);
    forall i | 0 <= i < |q'| ensures QueuedAt(g, start, level, q'[i], SlotLevel(k', s', i)) {
      assert q'[i] == q[i];
      assert SlotLevel(k', s', i) == SlotLevel(k, s, i);
    }
  }

  /** Taking an already visited cell off the deque keeps every successor visited or waiting. */
  lemma PopFrontier(g: Graph, level: map<Coord, nat>, q: seq<Entry>, k: nat, s: nat)
    requires Frontier(g, level, q, k, s)
    requires |q| > 0 && s <= |q| && q[|q| - 1].loc in level
    ensures Frontier(g, level, q[..|q| - 1], PopLevel(k, s, |q|), PopSplit(s, |q|))
  {
    var q', k', s' := q[..|q| - 1], PopLevel(k, s, |q|), PopSplit(s, |q|);
    forall x | x in level ensures FrontierAt(g, level, q', k', s', x) {
      assert FrontierAt(g, level, q, k, s, x);
      forall y | y in Succ(g, x) && y !in level ensures Waiting(q', k', s', y, level[x] + 1) {
        var i :| 0 <= i < |q| && q[i].loc == y && SlotLevel(k, s, i) <= level[x] + 1;
        assert i < |q'| && q'[i] == q[i];
        assert SlotLevel(k', s', i) == SlotLevel(k, s, i);
      }
    }
  }

  /** Taking an already visited cell off the deque keeps the invariant. */
  lemma PopSkip(g: Graph, start: Coord, stop: Coord, d: nat,
                parents: map<Coord, Option<Coord>>, level: map<Coord, nat>, q: seq<Entry>, k: nat, s: nat)
    requires Inv(g, start, stop, d, parents, level, q, k, s)
    requires |q| > 0 && q[|q| - 1].loc in parents
    ensures Inv(g, start, stop, d, parents, level, q[..|q| - 1], PopLevel(k, s, |q|), PopSplit(s, |q|))
  {
    PopQueue(g, start, level, q, k, s);
    PopFrontier(g, level, q, k, s);
  }

  /** Recording a cell under a parent already in the tree keeps it a tree. */
  lemma TreeAdd(g: Graph, start: Coord, parents: map<Coord, Option<Coord>>, level: map<Coord, nat>,
                x: Coord, parent: Option<Coord>, k: nat)
    requires Tree(g, start, parents, level) && x !in parents
    requires parent.None? ==> x == start && k == 0
    requires parent.Some? ==> parent.value in parents && x in Succ(g, parent.value) &&
                              k == level[parent.value] + 1
    ensures Tree(g, start, parents[x := parent], level[x := k]) && start in parents[x := parent]
  {
  }

  /**
   * The cell taken off the deque for the first time is exactly its queued
   * level away from `start`.
   */
  lemma VisitLevel(g: Graph, start: Coord, parents: map<Coord, Option<Coord>>, level: map<Coord, nat>,
                   q: seq<Entry>, k: nat, s: nat)
    requires Tree(g, start, parents, level) && QueueOk(g, start, level, q, k, s)
    requires Frontier(g, level, q, k, s)
    requires |q| > 0 && q[|q| - 1].loc !in parents
    ensures var x, lv := q[|q| - 1].loc, PopLevel(k, s, |q|);
            x in Layer(g, start, lv) && (lv > 0 ==> x !in Layer(g, start, lv - 1))
  {
    var e, lv := q[|q| - 1], PopLevel(k, s, |q|);
    PopQueue(g, start, level, q, k, s);
    if e.parent.Some? {
      var p := e.parent.value;
      TreeReached(g, start, parents, level, p);
      LayerStep(g, start, level[p], p, e.loc);
      assert e.loc in Layer(g, start, lv);
      Closure(g, start, level, q, k, s, lv, lv - 1);
      assert !Near(level, e.loc, lv - 1);
      assert e.loc !in Layer(g, start, lv - 1);
    } else {
      assert lv == 0;
    }
  }

  /** That cell also lies inside layer `d`, the bound of the search. */
  lemma VisitDistance(g: Graph, start: Coord, stop: Coord, d: nat,
                      parents: map<Coord, Option<Coord>>, level: map<Coord, nat>, q: seq<Entry>, k: nat, s: nat)
    requires Inv(g, start, stop, d, parents, level, q, k, s)
    requires SearchBound(g, start, stop, d)
    requires |q| > 0 && q[|q| - 1].loc !in parents
    ensures var x, lv := q[|q| - 1].loc, PopLevel(k, s, |q|);
            x in Layer(g, start, lv) && (lv > 0 ==> x !in Layer(g, start, lv - 1)) &&
            x in Layer(g, start, d)
  {
    var x, lv := q[|q| - 1].loc, PopLevel(k, s, |q|);
    VisitLevel(g, start, parents, level, q, k, s);
    if lv <= d {
      LayerMonotone(g, start, lv, d);
    } else {
      PopQueue(g, start, level, q, k, s);
      assert q[|q| - 1].parent.Some?;
      Closure(g, start, level, q, k, s, lv, d);
      LayerStable(g, start, d, lv);
      assert false;
    }
  }

  /** Visiting a new cell of layer `d` leaves fewer cells of layer `d` unvisited. */
  lemma VisitProgress(g: Graph, start: Coord, d: nat, parents: map<Coord, Option<Coord>>,
                      x: Coord, parent: Option<Coord>)
    requires x !in parents && x in Layer(g, start, d)
    ensures Layer(g, start, d) - parents[x := parent].Keys < Layer(g, start, d) - parents.Keys
  {
    assert x in Layer(g, start, d) - parents.Keys;
  }

  /** When the deque runs empty without `stop` visited, `stop` is unreachable. */
  lemma Exhausted(g: Graph, start: Coord, stop: Coord, d: nat,
                  parents: map<Coord, Option<Coord>>, level: map<Coord, nat>, k: nat, s: nat)
    requires Inv(g, start, stop, d, parents, level, [], k, s) && parents != map[]
    ensures Tree(g, start, parents, level) && start in parents
    ensures stop !in parents && !Reachable(g, start, stop)
  {
    forall n: nat | stop in Layer(g, start, n) ensures false {
      Closure(g, start, level, [], k, s, n + 1, n);
    }
  }

  /** Recording the first visit of a cell keeps the tree, the settled levels and the bound. */
  lemma Visit(g: Graph, start: Coord, stop: Coord, d: nat,
              parents: map<Coord, Option<Coord>>, level: map<Coord, nat>, q: seq<Entry>, k: nat, s: nat)
    requires Inv(g, start, stop, d, parents, level, q, k, s)
    requires SearchBound(g, start, stop, d)
    requires |q| > 0 && q[|q| - 1].loc !in parents
    ensures var e, lv := q[|q| - 1], PopLevel(k, s, |q|);
            var parents', level' := parents[e.loc := e.parent], level[e.loc := lv];
            Tree(g, start, parents', level') && start in parents' &&
            Settled(level', lv) && Bounded(g, start, d, parents') &&
            e.loc in Layer(g, start, lv) && (lv > 0 ==> e.loc !in Layer(g, start, lv - 1))
  {
    var e, lv := q[|q| - 1], PopLevel(k, s, |q|);
    PopQueue(g, start, level, q, k, s);
    VisitDistance(g, start, stop, d, parents, level, q, k, s);
    TreeAdd(g, start, parents, level, e.loc, e.parent, lv);
  }

  /**
   * The successors of the newly visited `x` (at level `k`), pushed at the
   * left end of the rest of the deque, sit one level further on.
   */
  lemma ExpandQueue(g: Graph, start: Coord, level: map<Coord, nat>, q: seq<Entry>, k: nat, s: nat,
                    x: Coord, ns: seq<Coord>, q2: seq<Entry>)
    requires QueueOk(g, start, level, q, k, s)
    requires x !in level && Elems(ns) == Succ(g, x)
    requires |q2| == |q| + |ns| && q2[|ns|..] == q
    requires forall j :: 0 <= j < |ns| ==> q2[j] == Entry(ns[|ns| - 1 - j], Some(x))
    ensures QueueOk(g, start, level[x := k], q2, k, s + |ns|)
  {
    var m, level' := |ns|, level[x := k];
    forall j | 0 <= j < |q2| ensures QueuedAt(g, start, level', q2[j], SlotLevel(k, s + m, j)) {
      if j < m {
        assert q2[j].loc == ns[m - 1 - j] && ns[m - 1 - j] in Elems(ns);
      } else {
        assert q2[j] == q2[m..][j - m] == q[j - m];
        assert SlotLevel(k, s + m, j) == SlotLevel(k, s, j - m);
        assert QueuedAt(g, start, level, q[j - m], SlotLevel(k, s, j - m));
      }
    }
  }

  /**
   * After the cell `x` taken off the deque is visited and its successors
   * pushed, every successor of a visited cell is visited or waiting.
   */
  lemma ExpandFrontier(g: Graph, level: map<Coord, nat>, q: seq<Entry>, k: nat, s: nat,
                       ns: seq<Coord>, q2: seq<Entry>)
    requires Frontier(g, level, q, k, s) && Settled(level, k)
    requires |q| > 0 && s <= |q| && q[|q| - 1].loc !in level
    requires Elems(ns) == Succ(g, q[|q| - 1].loc)
    requires |q2| == |q| - 1 + |ns| && q2[|ns|..] == q[..|q| - 1]
    requires forall j :: 0 <= j < |ns| ==> q2[j] == Entry(ns[|ns| - 1 - j], Some(q[|q| - 1].loc))
    ensures var x, k' := q[|q| - 1].loc, PopLevel(k, s, |q|);
            Frontier(g, level[x := k'], q2, k', PopSplit(s, |q|) + |ns|)
  {
    var x, k', s', m := q[|q| - 1].loc, PopLevel(k, s, |q|), PopSplit(s, |q|), |ns|;
    var level' := level[x := k'];
    forall z | z in level' ensures FrontierAt(g, level', q2, k', s' + m, z) {
      forall y | y in Succ(g, z)
        ensures if y in level' then level'[y] <= level'[z] + 1 else Waiting(q2, k', s' + m, y, level'[z] + 1)
      {
        if z == x {
          if y !in level' {
            assert y in Elems(ns);
            var t :| 0 <= t < m && ns[t] == y;
            assert q2[m - 1 - t].loc == y;
          }
        } else {
          assert FrontierAt(g, level, q, k, s, z);
          if y == x {
            var i :| 0 <= i < |q| && q[i].loc == y && SlotLevel(k, s, i) <= level[z] + 1;
          } else if y !in level {
            var i :| 0 <= i < |q| && q[i].loc == y && SlotLevel(k, s, i) <= level[z] + 1;
            assert i < |q| - 1;
            assert q2[i + m] == q2[m..][i] == q[i];
            assert SlotLevel(k', s' + m, i + m) == SlotLevel(k, s, i);
          }
        }
      }
    }
  }

  /**
   * One expansion step of the search loop keeps its invariant: the cell
   * taken off the deque is recorded and its successors pushed at the left.
   */
  lemma Expand(g: Graph, start: Coord, stop: Coord, d: nat,
               parents: map<Coord, Option<Coord>>, level: map<Coord, nat>, q: seq<Entry>, k: nat, s: nat,
               ns: seq<Coord>, q2: seq<Entry>)
    requires Inv(g, start, stop, d, parents, level, q, k, s)
    requires SearchBound(g, start, stop, d)
    requires |q| > 0 && q[|q| - 1].loc !in parents && q[|q| - 1].loc != stop
    requires Elems(ns) == Succ(g, q[|q| - 1].loc)
    requires |q2| == |q| - 1 + |ns| && q2[|ns|..] == q[..|q| - 1]
    requires forall j :: 0 <= j < |ns| ==> q2[j] == Entry(ns[|ns| - 1 - j], Some(q[|q| - 1].loc))
    ensures var e, k' := q[|q| - 1], PopLevel(k, s, |q|);
            Inv(g, start, stop, d, parents[e.loc := e.parent], level[e.loc := k'], q2, k', PopSplit(s, |q|) + |ns|)
  {
    var e := q[|q| - 1];
    Visit(g, start, stop, d, parents, level, q, k, s);
    PopQueue(g, start, level, q, k, s);
    ExpandQueue(g, start, level, q[..|q| - 1], PopLevel(k, s, |q|), PopSplit(s, |q|), e.loc, ns, q2);
    ExpandFrontier(g, level, q, k, s, ns, q2);
  }

  /** The search stops at its first visit of `stop`, which it reached by a shortest route. */
  lemma Found(g: Graph, start: Coord, stop: Coord, d: nat,
              parents: map<Coord, Option<Coord>>, level: map<Coord, nat>, q: seq<Entry>, k: nat, s: nat)
    requires Inv(g, start, stop, d, parents, level, q, k, s)
    requires SearchBound(g, start, stop, d)
    requires |q| > 0 && q[|q| - 1].loc == stop
    ensures var e, lv := q[|q| - 1], PopLevel(k, s, |q|);
            var parents', level' := parents[stop := e.parent], level[stop := lv];
            Tree(g, start, parents', level') && start in parents' && stop in parents' &&
            Reachable(g, start, stop) &&
            forall n: nat :: n < level'[stop] ==> stop !in Layer(g, start, n)
  {
    Visit(g, start, stop, d, parents, level, q, k, s);
    NotNearer(g, start, stop, PopLevel(k, s, |q|));
  }

  // ---------------------------------------------------------------- the loop's view

  /**
   * `Inv` behind `depth` wrappers. The solver opens one wrapper per use, so
   * for a depth it only knows to be positive the invariant's body stays
   * closed: the search loop passes it from one step lemma to the next, and
   * only those lemmas open it (`Unseal`) and close it again (`Seal`).
   */
  ghost predicate Sealed(depth: nat, g: Graph, start: Coord, stop: Coord, d: nat,
                         parents: map<Coord, Option<Coord>>, level: map<Coord, nat>,
                         q: seq<Entry>, k: nat, s: nat)
    decreases depth
  {
    if depth == 0 then Inv(g, start, stop, d, parents, level, q, k, s)
    else Sealed(depth - 1, g, start, stop, d, parents, level, q, k, s)
  }

  lemma {:induction false} Unseal(depth: nat, g: Graph, start: Coord, stop: Coord, d: nat,
                                  parents: map<Coord, Option<Coord>>, level: map<Coord, nat>,
                                  q: seq<Entry>, k: nat, s: nat)
    requires Sealed(depth, g, start, stop, d, parents, level, q, k, s)
    ensures Inv(g, start, stop, d, parents, level, q, k, s)
    decreases depth
  {
    if depth > 0 {
      Unseal(depth - 1, g, start, stop, d, parents, level, q, k, s);
    }
  }

  lemma {:induction false} Seal(depth: nat, g: Graph, start: Coord, stop: Coord, d: nat,
                                parents: map<Coord, Option<Coord>>, level: map<Coord, nat>,
                                q: seq<Entry>, k: nat, s: nat)
    requires Inv(g, start, stop, d, parents, level, q, k, s)
    ensures Sealed(depth, g, start, stop, d, parents, level, q, k, s)
    decreases depth
  {
    if depth > 0 {
      Seal(depth - 1, g, start, stop, d, parents, level, q, k, s);
    }
  }

  /** The search starts with `start` alone on the deque. */
  lemma SealedBegin(depth: nat, g: Graph, start: Coord, stop: Coord, d: nat)
    ensures Sealed(depth, g, start, stop, d, map[], map[], [Entry(start, None)], 0, 0)
  {
    Seal(depth, g, start, stop, d, map[], map[], [Entry(start, None)], 0, 0);
  }

  /** An already visited cell taken off the deque is skipped. */
  lemma SealedSkip(depth: nat, g: Graph, start: Coord, stop: Coord, d: nat,
                   parents: map<Coord, Option<Coord>>, level: map<Coord, nat>, q: seq<Entry>, k: nat, s: nat)
    requires Sealed(depth, g, start, stop, d, parents, level, q, k, s)
    requires |q| > 0 && q[|q| - 1].loc in parents
    ensures Sealed(depth, g, start, stop, d, parents, level, q[..|q| - 1], PopLevel(k, s, |q|), PopSplit(s, |q|))
  {
    Unseal(depth, g, start, stop, d, parents, level, q, k, s);
    PopSkip(g, start, stop, d, parents, level, q, k, s);
    Seal(depth, g, start, stop, d, parents, level, q[..|q| - 1], PopLevel(k, s, |q|), PopSplit(s, |q|));
  }

  /** The first visit of `stop` ends the search. */
  lemma SealedFound(depth: nat, g: Graph, start: Coord, stop: Coord, d: nat,
                    parents: map<Coord, Option<Coord>>, level: map<Coord, nat>, q: seq<Entry>, k: nat, s: nat)
    requires Sealed(depth, g, start, stop, d, parents, level, q, k, s)
    requires SearchBound(g, start, stop, d)
    requires |q| > 0 && q[|q| - 1].loc == stop
    ensures var e, lv := q[|q| - 1], PopLevel(k, s, |q|);
            var parents', level' := parents[stop := e.parent], level[stop := lv];
            Tree(g, start, parents', level') && start in parents' && stop in parents' &&
            Reachable(g, start, stop) &&
            forall n: nat :: n < level'[stop] ==> stop !in Layer(g, start, n)
  {
    Unseal(depth, g, start, stop, d, parents, level, q, k, s);
    Found(g, start, stop, d, parents, level, q, k, s);
  }

  /**
   * Any other new cell is visited and its successors pushed; fewer cells of
   * layer `d` remain unvisited.
   */
  lemma SealedExpand(depth: nat, g: Graph, start: Coord, stop: Coord, d: nat, area: set<Coord>,
                     parents: map<Coord, Option<Coord>>, level: map<Coord, nat>, q: seq<Entry>, k: nat, s: nat,
                     ns: seq<Coord>, q2: seq<Entry>)
    requires Sealed(depth, g, start, stop, d, parents, level, q, k, s) && area == Layer(g, start, d)
    requires SearchBound(g, start, stop, d)
    requires |q| > 0 && q[|q| - 1].loc !in parents && q[|q| - 1].loc != stop
    requires Elems(ns) == Succ(g, q[|q| - 1].loc)
    requires |q2| == |q| - 1 + |ns| && q2[|ns|..] == q[..|q| - 1]
    requires forall j :: 0 <= j < |ns| ==> q2[j] == Entry(ns[|ns| - 1 - j], Some(q[|q| - 1].loc))
    ensures var e, k' := q[|q| - 1], PopLevel(k, s, |q|);
            Sealed(depth, g, start, stop, d, parents[e.loc := e.parent], level[e.loc := k'], q2, k',
                   PopSplit(s, |q|) + |ns|) &&
            area - parents[e.loc := e.parent].Keys < area - parents.Keys
  {
    var e, k' := q[|q| - 1], PopLevel(k, s, |q|);
    Unseal(depth, g, start, stop, d, parents, level, q, k, s);
    Visit(g, start, stop, d, parents, level, q, k, s);
    VisitProgress(g, start, d, parents, e.loc, e.parent);
    Expand(g, start, stop, d, parents, level, q, k, s, ns, q2);
    Seal(depth, g, start, stop, d, parents[e.loc := e.parent], level[e.loc := k'], q2, k', PopSplit(s, |q|) + |ns|);
  }

  /** The deque ran empty without `stop` visited: `stop` is unreachable. */
  lemma SealedExhausted(depth: nat, g: Graph, start: Coord, stop: Coord, d: nat,
                        parents: map<Coord, Option<Coord>>, level: map<Coord, nat>, k: nat, s: nat)
    requires Sealed(depth, g, start, stop, d, parents, level, [], k, s) && parents != map[]
    ensures Tree(g, start, parents, level) && start in parents
    ensures stop !in parents && !Reachable(g, start, stop)
  {
    Unseal(depth, g, start, stop, d, parents, level, [], k, s);
    Exhausted(g, start, stop, d, parents, level, k, s);
  }
}
