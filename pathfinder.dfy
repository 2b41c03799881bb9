module Pathfinder {
  import opened Grid
  import opened Search

  /**
   * `for new_loc in ns: q.appendleft((new_loc, x))`: the entries end up at
   * the left end of the deque in reverse order.
   */
  method PushAll(q: seq<Entry>, ns: seq<Coord>, x: Coord) returns (q2: seq<Entry>)
    ensures |q2| == |q| + |ns| && q2[|ns|..] == q
    ensures forall j :: 0 <= j < |ns| ==> q2[j] == Entry(ns[|ns| - 1 - j], Some(x))
  {
    q2 := q;
    var i := 0;
    while i < |ns|
      invariant 0 <= i <= |ns|
      invariant |q2| == |q| + i && q2[i..] == q
      invariant forall j :: 0 <= j < i ==> q2[j] == Entry(ns[i - 1 - j], Some(x))
    {
      q2 := [Entry(ns[i], Some(x))] + q2;
      i := i + 1;
      assert q2[i..] == q2[1..][i - 1..];
    }
  }

  /**
   * The search loop of `_get_shortest_path` (the `while len(q) > 0` part).
   * It records every visited cell's parent; the ghost `level` is each
   * visited cell's distance from `start`.
   */
  method Explore(b: array2<int>, ghost g: Graph, start: Coord, stop: Coord)
    returns (parents: map<Coord, Option<Coord>>, ghost level: map<Coord, nat>)
    requires IsNeighborGraph(g, TerrainOf(b)) && CanTerminate(g, start, stop)
    ensures Tree(g, start, parents, level) && start in parents
    ensures stop in parents <==> Reachable(g, start, stop)
    ensures stop in parents ==> forall n: nat :: n < level[stop] ==> stop !in Layer(g, start, n)
  {
    ghost var d: nat :| SearchBound(g, start, stop, d);
    parents := map[];
    level := map[];
    var q := [Entry(start, None)];
    ghost var k: nat, s: nat := 0, 0;
    // An unknown positive depth keeps `Inv` closed inside the loop.
    ghost var seal: nat :| seal > 0;
    ghost var area := Layer(g, start, d);
    SealedBegin(seal, g, start, stop, d);
    while |q| > 0
      invariant Sealed(seal, g, start, stop, d, parents, level, q, k, s)
      invariant parents == map[] ==> q == [Entry(start, None)]
      decreases area - parents.Keys, |q|
    {
      var e := q[|q| - 1];
      ghost var q0, k0, s0 := q, k, s;
      q := q[..|q| - 1];
      k, s := PopLevel(k0, s0, |q0|), PopSplit(s0, |q0|);
      if e.loc in parents {
        SealedSkip(seal, g, start, stop, d, parents, level, q0, k0, s0);
        continue;
      }
      if e.loc == stop {
        SealedFound(seal, g, start, stop, d, parents, level, q0, k0, s0);
        parents := parents[e.loc := e.parent];
        level := level[e.loc := k];
        return;
      }
      var ns := GetValidNeighbors(b, e.loc);
      ghost var parents0, level0 := parents, level;
      parents := parents[e.loc := e.parent];
      level := level[e.loc := k];
      q := PushAll(q, ns, e.loc);
      s := s + |ns|;
      SealedExpand(seal, g, start, stop, d, area, parents0, level0, q0, k0, s0, ns, q);
    }
    SealedExhausted(seal, g, start, stop, d, parents, level, k, s);
  }

  /**
   * The reconstruction loop of `_get_shortest_path`: follow parents from
   * `stop` back to `start`. Prepending each cell equals the source's
   * append-then-reverse. A missing key is Python's `KeyError`.
   */
  method TracePath(ghost g: Graph, start: Coord, stop: Coord,
                   parents: map<Coord, Option<Coord>>, ghost level: map<Coord, nat>)
    returns (r: Result<seq<Coord>>)
    requires Tree(g, start, parents, level) && start in parents
    ensures r.Err? <==> stop !in parents
    ensures r.Err? ==> r.error == KeyError
    ensures r.Ok? ==> Walk(g, start, r.value) && Target(start, r.value) == stop &&
                      start !in r.value && |r.value| == level[stop]
  {
    var res: seq<Coord> := [];
    var cur := stop;
    while cur != start
      invariant cur != stop ==> cur in parents
      invariant res == [] <==> cur == stop
      invariant cur in parents ==> stop in parents && |res| + level[cur] == level[stop]
      invariant Walk(g, cur, res) && Target(cur, res) == stop
      invariant forall z :: z in res ==> z in parents && level[z] > 0
      decreases if cur in parents then level[cur] + 1 else 0
    {
      var next := [cur] + res;
      if cur !in parents {
        return Err(KeyError);
      }
      var p := parents[cur];
      assert next[0] == cur && next[1..] == res;
      res := next;
      cur := p.value;
    }
    r := Ok(res);
  }

  /**
   * `_get_shortest_path(start, stop)` on the board `b`, whose neighbour
   * graph is `g`. The search ends exactly when `stop` is reachable
   * (`TerminatesIffReachable`); it then returns a shortest neighbour path
   * from `start` (exclusive) to `stop` (inclusive), and the reconstruction
   * never meets a missing key.
   */
  method ShortestPath(b: array2<int>, ghost g: Graph, start: Coord, stop: Coord) returns (path: seq<Coord>)
    requires IsNeighborGraph(g, TerrainOf(b)) && Reachable(g, start, stop)
    ensures IsShortestPath(g, start, stop, path)
    ensures path == [] <==> start == stop
  {
    TerminatesIffReachable(g, TerrainOf(b), start, stop);
    var parents, level := Explore(b, g, start, stop);
    var r := TracePath(g, start, stop, parents, level);
    path := r.value;
  }

  /** The board's own neighbour graph is one `ShortestPath` accepts. */
  lemma BoardGraph(b: array2<int>) returns (g: Graph)
    ensures g == NeighborGraph(TerrainOf(b)) && IsNeighborGraph(g, TerrainOf(b))
  {
    g := NeighborGraph(TerrainOf(b));
  }
}
