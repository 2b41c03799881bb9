/**
 * The seeker `Scotland_yard`: each turn it either chases the hider along a
 * shortest path, when the hider stands on a visible square, or moves to the
 * least recently seen of its legal moves and records the squares it swept.
 */
module Seeker {
  import opened Grid
  import opened Search
  import opened Pathfinder
  import opened Staleness

  /** `SEARCHING = 1`, `CHASING = 2`. */
  datatype Mode = Searching | Chasing

  // ---------------------------------------------------------------- own location

  /** `c` comes strictly before row `i`, column `j` in row-major order. */
  predicate Before(c: Coord, i: int, j: int)
  {
    c.row < i || (c.row == i && c.col < j)
  }

  /** The first cell holding `SELF` at or after row `i`, column `j`, in row-major order. */
  function FirstSelfFrom(b: array2<int>, i: nat, j: nat): (r: Option<Coord>)
    reads b
    requires j <= b.Length1
    ensures r.Some? ==> InBounds(b, r.value) && b[r.value.row, r.value.col] == SELF && !Before(r.value, i, j)
    decreases b.Length0 - i, b.Length1 - j
  {
    if i >= b.Length0 then None
    else if j == b.Length1 then FirstSelfFrom(b, i + 1, 0)
    else if b[i, j] == SELF then Some(Coord(i, j))
    else FirstSelfFrom(b, i, j + 1)
  }

  /** No cell from row `i`, column `j` on, up to the one found (or to the end), holds `SELF`. */
  lemma {:induction false} FirstSelfFromIsFirst(b: array2<int>, i: nat, j: nat)
    requires j <= b.Length1
    ensures var r := FirstSelfFrom(b, i, j);
            forall c :: InBounds(b, c) && !Before(c, i, j) && (r.Some? ==> Before(c, r.value.row, r.value.col)) ==>
              b[c.row, c.col] != SELF
    decreases b.Length0 - i, b.Length1 - j
  {
    if i >= b.Length0 {
    } else if j == b.Length1 {
      FirstSelfFromIsFirst(b, i + 1, 0);
    } else if b[i, j] != SELF {
      FirstSelfFromIsFirst(b, i, j + 1);
    }
  }

  /**
   * The cell `_set_cur_loc` settles on: the first cell holding `SELF` in
   * row-major order, or none when no cell holds it.
   */
  function FirstSelf(b: array2<int>): (r: Option<Coord>)
    reads b
    ensures r.Some? ==> InBounds(b, r.value) && b[r.value.row, r.value.col] == SELF
    ensures r.Some? ==> forall c :: InBounds(b, c) && Before(c, r.value.row, r.value.col) ==> b[c.row, c.col] != SELF
    ensures r.None? ==> forall c :: InBounds(b, c) ==> b[c.row, c.col] != SELF
  {
    FirstSelfFromIsFirst(b, 0, 0);
    FirstSelfFrom(b, 0, 0)
  }

  /** `_set_cur_loc`: scan the rows, and each row's cells, for the first `SELF`. */
  method FindSelf(b: array2<int>) returns (r: Option<Coord>)
    ensures r == FirstSelf(b)
  {
    var i := 0;
    while i < b.Length0
      invariant FirstSelfFrom(b, i, 0) == FirstSelf(b)
    {
      var j := 0;
      while j < b.Length1
        invariant j <= b.Length1
        invariant FirstSelfFrom(b, i, j) == FirstSelf(b)
      {
        if b[i, j] == SELF {
          return Some(Coord(i, j));
        }
        j := j + 1;
      }
      i := i + 1;
    }
    return None;
  }

  /** Where the seeker stands once the turn has set up `cur_loc`. */
  function Here(b: array2<int>, curLoc: Option<Coord>): (r: Option<Coord>)
    reads b
    ensures curLoc.Some? ==> r == curLoc
    ensures curLoc.None? ==> r == FirstSelf(b)
    ensures curLoc.None? ==> (r.Some? <==> exists c :: InBounds(b, c) && b[c.row, c.col] == SELF)
  {
    if curLoc.Some? then curLoc else FirstSelf(b)
  }

  // ---------------------------------------------------------------- the hider

  predicate AllInBounds(b: array2<int>, cells: seq<Coord>)
  {
    forall i :: 0 <= i < |cells| ==> InBounds(b, cells[i])
  }

  /**
   * `_get_hider_loc`: the first visible square holding `PLAYER_2`, or none
   * when no visible square does.
   */
  function HiderLoc(b: array2<int>, visible: seq<Coord>): (r: Option<Coord>)
    reads b
    requires AllInBounds(b, visible)
    ensures r.None? <==> forall i :: 0 <= i < |visible| ==> b[visible[i].row, visible[i].col] != PLAYER_2
    ensures r.Some? ==> exists i :: 0 <= i < |visible| && visible[i] == r.value &&
                          b[visible[i].row, visible[i].col] == PLAYER_2 &&
                          forall j :: 0 <= j < i ==> b[visible[j].row, visible[j].col] != PLAYER_2
  {
    if visible == [] then None
    else if b[visible[0].row, visible[0].col] == PLAYER_2 then Some(visible[0])
    else
      var r := HiderLoc(b, visible[1..]);
      assert forall j :: 0 < j < |visible| ==> visible[j] == visible[1..][j - 1];
      r
  }

  /** `_get_hider_loc`: look at the visible squares in order, stop at the hider. */
  method FindHider(b: array2<int>, visible: seq<Coord>) returns (r: Option<Coord>)
    requires AllInBounds(b, visible)
    ensures r == HiderLoc(b, visible)
  {
    var i := 0;
    while i < |visible|
      invariant i <= |visible| && AllInBounds(b, visible[i..])
      invariant HiderLoc(b, visible[i..]) == HiderLoc(b, visible)
    {
      var s := visible[i];
      assert visible[i..][0] == s && visible[i..][1..] == visible[i + 1..];
      if b[s.row, s.col] == PLAYER_2 {
        return Some(s);
      }
      i := i + 1;
    }
    return None;
  }

  // ---------------------------------------------------------------- chasing

  /**
   * The chase rule over a path: `c` is the last cell of `path` that is a
   * legal move, or `path[0]` when none is.
   */
  ghost predicate ChaseChoice(path: seq<Coord>, validMoves: seq<Coord>, c: Coord)
    ensures ChaseChoice(path, validMoves, c) ==> c in path
  {
    exists i :: 0 <= i < |path| && path[i] == c && (forall j :: i < j < |path| ==> path[j] !in validMoves) &&
      (c in validMoves || (i == 0 && path[0] !in validMoves))
  }

  /** The legality rule picks a legal move whenever the path holds one. */
  lemma ChaseChoiceLegal(path: seq<Coord>, validMoves: seq<Coord>, c: Coord)
    requires ChaseChoice(path, validMoves, c)
    ensures c in path
    ensures (exists j :: 0 <= j < |path| && path[j] in validMoves) ==> c in validMoves
    ensures c !in validMoves ==> c == path[0]
  {
  }

  /** The chase rule names one cell per path: the loop's `best` is determined. */
  lemma ChaseChoiceUnique(path: seq<Coord>, validMoves: seq<Coord>, c: Coord, c': Coord)
    requires ChaseChoice(path, validMoves, c) && ChaseChoice(path, validMoves, c')
    ensures c == c'
  {
  }

  /**
   * What a search turn from `here` ends in, given the memory `m0` before it
   * and `m1` after it: a best candidate `c`, reached by a shortest path whose
   * cells, and `here`, are stamped with turn `t` after every legal move got
   * an entry.
   */
  ghost predicate SearchOutcome(g: Graph, here: Coord, m0: Memory, validMoves: seq<Coord>, t: nat,
                                c: Coord, m1: Memory)
  {
    c in Candidates(here, m0, validMoves) &&
    exists path :: IsShortestPath(g, here, c, path) && m1 == Stamp(Seed(m0, validMoves), path + [here], t)
  }

  /**
   * What a chase turn from `here` towards `hider` ends in: the chase rule's
   * cell on a shortest path, or an `IndexError` when the hider stands on
   * `here` (the path is empty).
   */
  ghost predicate ChaseOutcome(g: Graph, here: Coord, hider: Coord, validMoves: seq<Coord>, r: Result<Coord>)
  {
    match r
    case Ok(c) => exists path :: IsShortestPath(g, here, hider, path) && ChaseChoice(path, validMoves, c)
    case Err(e) => hider == here && e == IndexError
  }

  /** A search turn moves no recorded turn back, and records none beyond `t`. */
  lemma SearchOutcomeMonotone(g: Graph, here: Coord, m0: Memory, validMoves: seq<Coord>, t: nat,
                              c: Coord, m1: Memory)
    requires UpTo(m0, t) && SearchOutcome(g, here, m0, validMoves, t, c, m1)
    ensures NoDecrease(m0, m1) && UpTo(m1, t)
  {
    var path :| IsShortestPath(g, here, c, path) && m1 == Stamp(Seed(m0, validMoves), path + [here], t);
    SeedStampMonotone(m0, validMoves, path + [here], t);
  }

  /**
   * After a search turn every legal move and every old entry is recorded;
   * `here` and every cell of a shortest path to the chosen move are stamped
   * with turn `t`, and every other entry is as the scan left it.
   */
  lemma SearchOutcomeRecords(g: Graph, here: Coord, m0: Memory, validMoves: seq<Coord>, t: nat,
                             c: Coord, m1: Memory)
    requires SearchOutcome(g, here, m0, validMoves, t, c, m1)
    ensures forall x :: x in validMoves ==> x in m1
    ensures forall x :: x in m0 ==> x in m1
    ensures exists path :: IsShortestPath(g, here, c, path) && Swept(m0, path, here, t, m1)
  {
    var path :| IsShortestPath(g, here, c, path) && m1 == Stamp(Seed(m0, validMoves), path + [here], t);
    StampAfterSeed(m0, validMoves, path, here, t);
  }

  /**
   * The loop of `_move_to_lrs_square` over the legal moves, on the memory
   * `m` and the current location `here`: every move without an entry gets
   * one at turn 0, and `best_moves` collects the moves of least recorded
   * turn, after `here` when none is below `INITIAL_BEST`.
   */
  method Scan(here: Coord, m: Memory, validMoves: seq<Coord>) returns (mem: Memory, bestMoves: seq<Coord>)
    ensures mem == Seed(m, validMoves)
    ensures bestMoves == Candidates(here, m, validMoves)
  {
    ghost var seen: seq<Coord> := [];
    // An unknown positive depth keeps `ScanState` closed inside the loop.
    ghost var seal: nat :| seal > 0;
    mem := m;
    var best: nat := INITIAL_BEST;
    bestMoves := [here];
    ScanClose(seal, here, m, seen, mem, best, bestMoves);
    var i := 0;
    while i < |validMoves|
      invariant i <= |validMoves| && seen == validMoves[..i]
      invariant ScanState(seal, here, m, seen, mem, best, bestMoves)
    {
      var x := validMoves[i];
      ScanAdvance(seal, here, m, seen, x, mem, best, bestMoves);
      if x !in mem {
        mem := mem[x := 0];
      }
      if mem[x] < best {
        best := mem[x];
        bestMoves := [x];
      } else if mem[x] == best {
        bestMoves := bestMoves + [x];
      }
      SliceStep(validMoves, i);
      seen := seen + [x];
      i := i + 1;
    }
    assert validMoves[..i] == validMoves;
    ScanOpen(seal, here, m, seen, mem, best, bestMoves);
  }

  /** A chase turn ends with a move exactly when the hider stands elsewhere. */
  lemma ChaseOutcomeOk(g: Graph, here: Coord, hider: Coord, validMoves: seq<Coord>, r: Result<Coord>)
    requires ChaseOutcome(g, here, hider, validMoves, r)
    ensures r.Ok? <==> hider != here
  {
    if r.Ok? {
      var path :| IsShortestPath(g, here, hider, path) && ChaseChoice(path, validMoves, r.value);
      assert path[|path| - 1] in path;
    }
  }

  // ---------------------------------------------------------------- the seeker

  class ScotlandYard {
    var coordToTurn: Memory
    var curLoc: Option<Coord>
    var turnNum: nat
    var state: Mode
    var prevState: Mode

    /** No recorded turn lies ahead of the turn counter. */
    ghost predicate Valid()
      reads this
    {
      UpTo(coordToTurn, turnNum)
    }

    /** `__init__`. */
    constructor()
      ensures Valid()
      ensures coordToTurn == map[] && curLoc == None && turnNum == 0
      ensures state == Searching && prevState == Chasing
    {
      coordToTurn := map[];
      curLoc := None;
      turnNum := 0;
      state := Searching;
      prevState := Chasing;
    }

    /**
     * `_update_mem(final_m)`: record every cell of a shortest path from
     * `cur_loc` to `final_m`, then `cur_loc` itself, at the current turn.
     */
    method UpdateMem(b: array2<int>, ghost g: Graph, finalM: Coord)
      requires IsNeighborGraph(g, TerrainOf(b)) && curLoc.Some? && Reachable(g, curLoc.value, finalM)
      modifies this
      ensures curLoc == old(curLoc) && turnNum == old(turnNum)
      ensures state == old(state) && prevState == old(prevState)
      ensures exists path :: IsShortestPath(g, curLoc.value, finalM, path) &&
                             coordToTurn == Stamp(old(coordToTurn), path + [curLoc.value], turnNum)
    {
      var path := ShortestPath(b, g, curLoc.value, finalM);
      ghost var m0 := coordToTurn;
      var i := 0;
      while i < |path|
        invariant i <= |path|
        invariant coordToTurn == Stamp(m0, path[..i], turnNum)
        invariant curLoc == old(curLoc) && turnNum == old(turnNum)
        invariant state == old(state) && prevState == old(prevState)
      {
        assert path[..i + 1][..i] == path[..i];
        coordToTurn := coordToTurn[path[i] := turnNum];
        i := i + 1;
      }
      coordToTurn := coordToTurn[curLoc.value := turnNum];
      assert path == path[..i];
      assert (path + [curLoc.value])[..|path|] == path;
    }

    /**
     * The scan of `_move_to_lrs_square`: every legal move without an entry
     * gets one at turn 0, and `best_moves` collects the moves of least
     * recorded turn, after the current location when none is below
     * `INITIAL_BEST`.
     */
    method ScanMoves(validMoves: seq<Coord>) returns (bestMoves: seq<Coord>)
      requires curLoc.Some?
      modifies this
      ensures curLoc == old(curLoc) && turnNum == old(turnNum)
      ensures state == old(state) && prevState == old(prevState)
      ensures coordToTurn == Seed(old(coordToTurn), validMoves)
      ensures bestMoves == Candidates(curLoc.value, old(coordToTurn), validMoves)
    {
      var mem;
      mem, bestMoves := Scan(curLoc.value, coordToTurn, validMoves);
      coordToTurn := mem;
    }

    /**
     * `_move_to_lrs_square`: scan the legal moves, pick one of the best at
     * random, and record the sweep to it.
     */
    method MoveToLrsSquare(b: array2<int>, ghost g: Graph, validMoves: seq<Coord>) returns (finalM: Coord)
      requires IsNeighborGraph(g, TerrainOf(b)) && curLoc.Some?
      requires forall c :: c in Candidates(curLoc.value, coordToTurn, validMoves) ==>
                 Reachable(g, curLoc.value, c)
      modifies this
      ensures curLoc == old(curLoc) && turnNum == old(turnNum)
      ensures state == old(state) && prevState == old(prevState)
      ensures SearchOutcome(g, curLoc.value, old(coordToTurn), validMoves, turnNum, finalM, coordToTurn)
    {
      var bestMoves := ScanMoves(validMoves);
      assert bestMoves[0] in bestMoves;
      finalM :| finalM in bestMoves;
      UpdateMem(b, g, finalM);
    }

    /**
     * `_move_towards_hider`: along a shortest path to the hider, keep the
     * last cell that is a legal move, starting from `path[0]`. An empty
     * path (the hider on the seeker's own square) is Python's `IndexError`.
     */
    method MoveTowardsHider(b: array2<int>, ghost g: Graph, hider: Coord, validMoves: seq<Coord>) returns (r: Result<Coord>)
      requires IsNeighborGraph(g, TerrainOf(b)) && curLoc.Some? && Reachable(g, curLoc.value, hider)
      ensures ChaseOutcome(g, curLoc.value, hider, validMoves, r)
    {
      var path := ShortestPath(b, g, curLoc.value, hider);
      if path == [] {
        return Err(IndexError);
      }
      var best := path[0];
      ghost var at := 0;
      var k := 0;
      while k < |path|
        invariant k <= |path| && 0 <= at < |path| && path[at] == best
        invariant forall j :: at < j < k ==> path[j] !in validMoves
        invariant best in validMoves || (at == 0 && forall j :: 0 <= j < k ==> path[j] !in validMoves)
      {
        if path[k] in validMoves {
          best := path[k];
          at := k;
        }
        k := k + 1;
      }
      return Ok(best);
    }

    /**
     * The start of `get_action_from_state`: remember the state, count the
     * turn, and on the first turn find the seeker's own square.
     */
    method BeginTurn(b: array2<int>)
      modifies this
      ensures prevState == old(state) && turnNum == old(turnNum) + 1
      ensures curLoc == old(Here(b, curLoc))
      ensures coordToTurn == old(coordToTurn) && state == old(state)
    {
      prevState := state;
      turnNum := turnNum + 1;
      if curLoc.None? {
        curLoc := FindSelf(b);
      }
    }

    /**
     * `get_action_from_state`: one turn. Count the turn, find the seeker's
     * own square on the first turn, look for the hider among the visible
     * squares, then chase or search; the chosen move becomes `cur_loc`.
     * An `IndexError` of the chase leaves the fields as the source leaves
     * them when the exception escapes.
     */
    method GetActionFromState(b: array2<int>, ghost g: Graph, visible: seq<Coord>, validMoves: seq<Coord>)
      returns (r: Result<Coord>)
      requires IsNeighborGraph(g, TerrainOf(b))
      requires Valid() && AllInBounds(b, visible) && Here(b, curLoc).Some?
      requires HiderLoc(b, visible).Some? ==>
                 Reachable(g, Here(b, curLoc).value, HiderLoc(b, visible).value)
      requires HiderLoc(b, visible).None? ==>
                 forall c :: c in Candidates(Here(b, curLoc).value, coordToTurn, validMoves) ==>
                   Reachable(g, Here(b, curLoc).value, c)
      modifies this
      ensures Valid()
      ensures turnNum == old(turnNum) + 1 && prevState == old(state)
      ensures state == Chasing <==> HiderLoc(b, visible).Some?
      ensures curLoc == if r.Ok? then Some(r.value) else old(Here(b, curLoc))
      ensures NoDecrease(old(coordToTurn), coordToTurn)
      ensures state == Searching ==>
                r.Ok? &&
                SearchOutcome(g, old(Here(b, curLoc)).value, old(coordToTurn), validMoves, turnNum,
                              r.value, coordToTurn)
      ensures state == Chasing ==>
                coordToTurn == old(coordToTurn) &&
                ChaseOutcome(g, old(Here(b, curLoc)).value, HiderLoc(b, visible).value, validMoves, r)
    {
      BeginTurn(b);
      ghost var here := curLoc.value;
      var hider := FindHider(b, visible);
      if hider.None? {
        state := Searching;
        var m := MoveToLrsSquare(b, g, validMoves);
        SearchOutcomeMonotone(g, here, old(coordToTurn), validMoves, turnNum, m, coordToTurn);
        r := Ok(m);
      } else {
        state := Chasing;
        r := MoveTowardsHider(b, g, hider.value, validMoves);
      }
      if r.Ok? {
        curLoc := Some(r.value);
      }
    }
  }
}
