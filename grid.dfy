/**
 * The board as the seeker sees it: coordinates, cell codes, and the
 * neighbour filter `_get_valid_neighbors`, modelled with its
 * remove-while-iterating behaviour.
 */
module Grid {

  datatype Option<T> = None | Some(value: T)

  /** The Python exceptions the seeker can raise on its own. */
  datatype Failure = KeyError | IndexError

  datatype Result<T> = Ok(value: T) | Err(error: Failure)

  /**
   * A cell `(row, col)`. Components are unbounded integers because the
   * neighbour filter can hand out cells above, below or beside the board.
   */
  datatype Coord = Coord(row: int, col: int)

  /** Cell code of the seeker itself. */
  const SELF: int := 1
  /** Cell code of an impassable cell. */
  const WALL: int := 3

  /** Codes the host library may use for the hider: anything but SELF and WALL. */
  type OpponentCode = c: int | c != 1 && c != 3 witness 2

  /** `Board.PLAYER_2` of the host library; its value is not fixed here. */
  const PLAYER_2: OpponentCode

  predicate InBounds(b: array2<int>, c: Coord)
  {
    0 <= c.row < b.Length0 && 0 <= c.col < b.Length1
  }

  /**
   * What the neighbour filter looks at on a board: its size and where its
   * walls are. Captured as a value so that the neighbour relation is a
   * plain function of it.
   */
  datatype Terrain = Terrain(rows: int, cols: int, walls: set<Coord>)

  /**
   * The walls of `b` at or after `(i, j)` in row-major order, collected cell
   * by cell.
   */
  ghost function WallsFrom(b: array2<int>, i: nat, j: nat): (w: set<Coord>)
    reads b
    requires j <= b.Length1
    ensures forall c {:trigger c in w} :: c in w <==>
              InBounds(b, c) && (c.row > i || (c.row == i && c.col >= j)) && b[c.row, c.col] == WALL
    decreases b.Length0 - i, b.Length1 - j
  {
    if i >= b.Length0 then {}
    else if j == b.Length1 then WallsFrom(b, i + 1, 0)
    else WallsFrom(b, i, j + 1) + (if b[i, j] == WALL then {Coord(i, j)} else {})
  }

  ghost function TerrainOf(b: array2<int>): (t: Terrain)
    reads b
    ensures t.rows == b.Length0 && t.cols == b.Length1
    ensures forall c {:trigger c in t.walls} :: c in t.walls <==> InBounds(b, c) && b[c.row, c.col] == WALL
  {
    Terrain(b.Length0, b.Length1, WallsFrom(b, 0, 0))
  }

  /** On a board, the filter's test reads the board itself: off it, or code 3 there. */
  lemma BlockedOnBoard(b: array2<int>, c: Coord)
    ensures Blocked(TerrainOf(b), c) <==> !InBounds(b, c) || b[c.row, c.col] == WALL
  {
  }

  /** The test of the filter: off the board, or a wall. */
  predicate Blocked(t: Terrain, c: Coord)
    ensures !Blocked(t, c) ==> 0 <= c.row < t.rows && 0 <= c.col < t.cols && c !in t.walls
  {
    c.row < 0 || c.col < 0 || c.row >= t.rows || c.col >= t.cols || c in t.walls
  }

  /** `[up, down, left, right]` of `loc`: the four adjacent cells, each once. */
  function Directions(loc: Coord): (r: seq<Coord>)
    ensures |r| == 4 && Distinct(r)
    ensures forall y :: y in r <==> Adjacent(loc, y)
  {
    [Coord(loc.row - 1, loc.col), Coord(loc.row + 1, loc.col),
     Coord(loc.row, loc.col - 1), Coord(loc.row, loc.col + 1)]
  }

  predicate Adjacent(a: Coord, c: Coord)
  {
    (a.row == c.row && (a.col == c.col + 1 || a.col + 1 == c.col)) ||
    (a.col == c.col && (a.row == c.row + 1 || a.row + 1 == c.row))
  }

  predicate Distinct(s: seq<Coord>)
  {
    forall i, j :: 0 <= i < j < |s| ==> s[i] != s[j]
  }

  /** Python's `list.remove(x)`: drop the first occurrence of `x`. */
  function RemoveFirst(s: seq<Coord>, x: Coord): (r: seq<Coord>)
    ensures x in s ==> |r| == |s| - 1
    ensures x !in s ==> r == s
  {
    if s == [] then []
    else if s[0] == x then s[1..]
    else [s[0]] + RemoveFirst(s[1..], x)
  }

  lemma {:induction false} RemoveFirstAt(s: seq<Coord>, i: nat)
    requires i < |s|
    requires s[i] !in s[..i]
    ensures RemoveFirst(s, s[i]) == s[..i] + s[i + 1..]
  {
    if i > 0 {
      assert s[1..][..i - 1] == s[..i][1..];
      RemoveFirstAt(s[1..], i - 1);
      assert s[1..][i - 1 + 1..] == s[i + 1..];
    }
  }

  /**
   * `for new_loc in potential: if blocked: potential.remove(new_loc)`:
   * the list iterator is the index `i`; a removal shifts the next element
   * into slot `i`, and the iterator then moves on past it.
   */
  function Sweep(t: Terrain, p: seq<Coord>, i: nat): (r: seq<Coord>)
    ensures |r| <= |p|
    decreases |p| - i
  {
    if i >= |p| then p
    else if Blocked(t, p[i]) then Sweep(t, RemoveFirst(p, p[i]), i + 1)
    else Sweep(t, p, i + 1)
  }

  /** `list.remove(x)` leaves every other cell where membership is concerned. */
  lemma {:induction false} RemoveFirstKeeps(s: seq<Coord>, x: Coord, z: Coord)
    requires z != x
    ensures z in RemoveFirst(s, x) <==> z in s
    decreases |s|
  {
    if s != [] && s[0] != x {
      RemoveFirstKeeps(s[1..], x, z);
      assert z in s <==> z == s[0] || z in s[1..];
    }
  }

  /** The loop returns only cells of its input, and drops none that passes the test. */
  lemma {:induction false} SweepFilters(t: Terrain, p: seq<Coord>, i: nat, y: Coord)
    ensures y in Sweep(t, p, i) ==> y in p
    ensures y in p && !Blocked(t, y) ==> y in Sweep(t, p, i)
    decreases |p| - i
  {
    if i < |p| {
      if Blocked(t, p[i]) {
        var q := RemoveFirst(p, p[i]);
        SweepFilters(t, q, i + 1, y);
        if y == p[i] {
          if y in q { RemoveFirstOnlyRemoves(p, p[i]); }
        } else {
          RemoveFirstKeeps(p, p[i], y);
        }
      } else {
        SweepFilters(t, p, i + 1, y);
      }
    }
  }

  /** `list.remove(x)` adds no cell. */
  lemma {:induction false} RemoveFirstOnlyRemoves(s: seq<Coord>, x: Coord)
    ensures forall z :: z in RemoveFirst(s, x) ==> z in s
    decreases |s|
  {
    if s != [] && s[0] != x {
      RemoveFirstOnlyRemoves(s[1..], x);
    }
  }

  /**
   * Reference description of the filter: a cell is kept when it passes the
   * test, or when the cell before it was removed (it is then never tested).
   */
  function Kept(t: Terrain, ds: seq<Coord>, prevRemoved: bool): seq<Coord>
  {
    if ds == [] then []
    else if prevRemoved || !Blocked(t, ds[0]) then [ds[0]] + Kept(t, ds[1..], false)
    else Kept(t, ds[1..], true)
  }

  /**
   * The neighbours `_get_valid_neighbors(loc)` returns, by the reference
   * rule; `NeighborsSweep` shows the source's loop computes exactly this.
   */
  function ValidNeighbors(t: Terrain, loc: Coord): (r: seq<Coord>)
    ensures forall y :: y in r ==> Adjacent(loc, y)
    ensures forall y :: Adjacent(loc, y) && !Blocked(t, y) ==> y in r
  {
    var ds := Directions(loc);
    KeptIsSubsequence(t, ds, false);
    KeptMembership(t, ds, false, 0);
    KeptMembership(t, ds, false, 1);
    KeptMembership(t, ds, false, 2);
    KeptMembership(t, ds, false, 3);
    Kept(t, ds, false)
  }

  lemma DistinctWithout(p: seq<Coord>, i: nat)
    requires i < |p| && Distinct(p)
    ensures Distinct(p[..i] + p[i + 1..])
  {
    var q := p[..i] + p[i + 1..];
    forall j, k | 0 <= j < k < |q| ensures q[j] != q[k] {
      var j' := if j < i then j else j + 1;
      var k' := if k < i then k else k + 1;
      assert q[j] == p[j'] && q[k] == p[k'] && j' < k';
    }
  }

  /** Taking one more element off the front of a suffix. */
  lemma SliceStep(p: seq<Coord>, i: nat)
    requires i < |p|
    ensures p[i..][0] == p[i] && p[i..][1..] == p[i + 1..]
    ensures p[..i + 1] == p[..i] + [p[i]]
  {
  }

  lemma {:induction false} SweepIsKept(t: Terrain, p: seq<Coord>, i: nat)
    requires i <= |p| && Distinct(p)
    ensures Sweep(t, p, i) == p[..i] + Kept(t, p[i..], false)
    decreases |p| - i, 1
  {
    if i == |p| {
      assert p[..i] == p;
    } else if Blocked(t, p[i]) {
      SweepRemoves(t, p, i);
    } else {
      SweepIsKept(t, p, i + 1);
      SliceStep(p, i);
    }
  }

  /** After a blocked head, the next cell is kept untested. */
  lemma KeptAfterBlocked(t: Terrain, ds: seq<Coord>)
    requires |ds| >= 1 && Blocked(t, ds[0])
    ensures Kept(t, ds, false) == if |ds| == 1 then [] else [ds[1]] + Kept(t, ds[2..], false)
  {
    if |ds| > 1 {
      assert ds[1..][0] == ds[1] && ds[1..][1..] == ds[2..];
    }
  }

  /**
   * A blocked cell at the iterator is removed, and the cell that slides
   * into its slot is passed over untested.
   */
  lemma {:induction false} SweepRemoves(t: Terrain, p: seq<Coord>, i: nat)
    requires i < |p| && Distinct(p) && Blocked(t, p[i])
    ensures Sweep(t, p, i) == p[..i] + Kept(t, p[i..], false)
    decreases |p| - i, 0
  {
    var q := p[..i] + p[i + 1..];
    assert p[i] !in p[..i];
    RemoveFirstAt(p, i);
    assert Sweep(t, p, i) == Sweep(t, q, i + 1);
    SliceStep(p, i);
    KeptAfterBlocked(t, p[i..]);
    if i + 1 < |p| {
      assert p[i..][1] == p[i + 1] && p[i..][2..] == p[i + 2..];
      SweepPastRemoved(t, p, i);
      assert p[..i] + [p[i + 1]] + Kept(t, p[i + 2..], false) == p[..i] + ([p[i + 1]] + Kept(t, p[i + 2..], false));
    } else {
      assert q == p[..i];
    }
  }

  /** The list after the removal at `i`, swept on from `i + 1`: the slid-in cell stays. */
  lemma {:induction false} SweepPastRemoved(t: Terrain, p: seq<Coord>, i: nat)
    requires i + 1 < |p| && Distinct(p)
    ensures Sweep(t, p[..i] + p[i + 1..], i + 1) == p[..i] + [p[i + 1]] + Kept(t, p[i + 2..], false)
    decreases |p| - i - 1, 2
  {
    var q := p[..i] + p[i + 1..];
    DistinctWithout(p, i);
    SweepIsKept(t, q, i + 1);
    assert q[..i + 1] == p[..i] + [p[i + 1]];
    assert q[i + 1..] == p[i + 2..];
  }

  predicate Subsequence(s: seq<Coord>, t: seq<Coord>)
  {
    if s == [] then true
    else if t == [] then false
    else if s[0] == t[0] then Subsequence(s[1..], t[1..])
    else Subsequence(s, t[1..])
  }

  lemma {:induction false} KeptIsSubsequence(t: Terrain, ds: seq<Coord>, flag: bool)
    ensures Subsequence(Kept(t, ds, flag), ds)
    ensures forall y :: y in Kept(t, ds, flag) ==> y in ds
  {
    if ds != [] {
      var k := Kept(t, ds, flag);
      if flag || !Blocked(t, ds[0]) {
        KeptIsSubsequence(t, ds[1..], false);
        assert k[0] == ds[0] && k[1..] == Kept(t, ds[1..], false);
      } else {
        KeptIsSubsequence(t, ds[1..], true);
        SubsequenceSkip(k, ds);
      }
    }
  }

  /** A subsequence of the tail of `t` is a subsequence of `t`. */
  lemma SubsequenceSkip(s: seq<Coord>, t: seq<Coord>)
    requires t != [] && Subsequence(s, t[1..])
    ensures Subsequence(s, t)
  {
    if s != [] && s[0] == t[0] {
      SubsequenceTail(s, t[1..]);
    }
  }

  /** Dropping the head of a subsequence leaves a subsequence. */
  lemma {:induction false} SubsequenceTail(s: seq<Coord>, u: seq<Coord>)
    requires s != [] && Subsequence(s, u)
    ensures Subsequence(s[1..], u)
    decreases |u|
  {
    if s[1..] != [] {
      if s[0] == u[0] {
        if s[1..][0] == u[0] {
          SubsequenceTail(s[1..], u[1..]);
        }
      } else {
        SubsequenceTail(s, u[1..]);
        if s[1..][0] == u[0] {
          SubsequenceTail(s[1..], u[1..]);
        }
      }
    }
  }

  /**
   * Exact membership rule of the filter over distinct cells: the cell at
   * index `j` is returned iff it passes the test, or the cell before it was
   * removed (for `j == 0`, iff it passes the test when `flag` is false).
   */
  lemma {:induction false} KeptMembership(t: Terrain, ds: seq<Coord>, flag: bool, j: nat)
    requires Distinct(ds) && j < |ds|
    ensures ds[j] in Kept(t, ds, flag) <==>
              (!Blocked(t, ds[j]) ||
               (if j == 0 then flag else ds[j - 1] !in Kept(t, ds, flag)))
  {
    var tailFlag := !(flag || !Blocked(t, ds[0]));
    KeptIsSubsequence(t, ds[1..], tailFlag);
    if j > 0 {
      assert ds[j] == ds[1..][j - 1];
      assert ds[0] !in ds[1..] by {
        forall k | 0 <= k < |ds[1..]| ensures ds[1..][k] != ds[0] {
          assert ds[1..][k] == ds[k + 1];
        }
      }
      KeptMembership(t, ds[1..], tailFlag, j - 1);
      if j > 1 {
        assert ds[j - 1] == ds[1..][j - 2];
      }
    }
  }

  /** The four candidate cells are distinct, and each is 4-adjacent to `loc`. */
  /** The source's loop, run over `[up, down, left, right]`, computes the reference rule. */
  lemma NeighborsSweep(t: Terrain, loc: Coord)
    ensures Sweep(t, Directions(loc), 0) == ValidNeighbors(t, loc)
  {
    var ds := Directions(loc);
    SweepIsKept(t, ds, 0);
    assert ds[..0] == [] && ds[0..] == ds;
  }

  /**
   * What `_get_valid_neighbors` returns is an order-preserving subsequence
   * of up, down, left, right, so each returned cell is 4-adjacent to `loc`.
   */
  lemma NeighborsShape(t: Terrain, loc: Coord)
    ensures Subsequence(ValidNeighbors(t, loc), Directions(loc))
    ensures forall y :: y in ValidNeighbors(t, loc) ==> y in Directions(loc) && Adjacent(loc, y)
  {
    KeptIsSubsequence(t, Directions(loc), false);
  }

  /**
   * Which neighbours are returned: `up` is always tested; no passable
   * in-bounds neighbour is ever dropped; and a later cell is returned
   * exactly when it passes the test or the cell before it was removed
   * (it is then returned untested).
   */
  lemma NeighborsRule(t: Terrain, loc: Coord)
    ensures Directions(loc)[0] in ValidNeighbors(t, loc) <==> !Blocked(t, Directions(loc)[0])
    ensures forall y :: y in Directions(loc) && !Blocked(t, y) ==> y in ValidNeighbors(t, loc)
    ensures forall j :: 0 < j < 4 ==>
              (Directions(loc)[j] in ValidNeighbors(t, loc) <==>
                 !Blocked(t, Directions(loc)[j]) || Directions(loc)[j - 1] !in ValidNeighbors(t, loc))
  {
    var ds := Directions(loc);
    KeptMembership(t, ds, false, 0);
    KeptMembership(t, ds, false, 1);
    KeptMembership(t, ds, false, 2);
    KeptMembership(t, ds, false, 3);
  }

  /** `y` lies in a lower row than `x`, or in the same row further left. */
  predicate Beyond(y: Coord, x: Coord)
  {
    y.row > x.row || (y.row == x.row && y.col < x.col)
  }

  /**
   * Every cell has a returned neighbour below it or to its left: when `up`
   * is removed, `down` is returned untested; when `up` passes and `down` is
   * removed, `left` is returned untested.
   */
  lemma Escape(t: Terrain, loc: Coord) returns (y: Coord)
    ensures y in ValidNeighbors(t, loc) && Beyond(y, loc)
  {
    var ds := Directions(loc);
    NeighborsRule(t, loc);
    if Blocked(t, ds[0]) || !Blocked(t, ds[1]) {
      y := ds[1];
    } else {
      y := ds[2];
    }
  }

  /** A returned cell is never above row 0 when `loc` is not: `up` is always tested. */
  lemma NeighborsStayBelowTop(t: Terrain, loc: Coord, y: Coord)
    requires loc.row >= 0 && y in ValidNeighbors(t, loc)
    ensures y.row >= 0
  {
    NeighborsRule(t, loc);
    NeighborsShape(t, loc);
  }

  /** The cells of `ds` that pass the filter's test, in order. */
  function Open(t: Terrain, ds: seq<Coord>): (r: seq<Coord>)
    ensures forall y :: y in r <==> y in ds && !Blocked(t, y)
    ensures |r| <= |ds|
  {
    if ds == [] then []
    else
      assert forall y :: y in ds <==> y == ds[0] || y in ds[1..];
      (if Blocked(t, ds[0]) then [] else [ds[0]]) + Open(t, ds[1..])
  }

  /**
   * The neighbour filter as its test intends it: exactly the on-board,
   * non-wall cells among up, down, left and right.
   */
  function OpenNeighbors(t: Terrain, loc: Coord): (r: seq<Coord>)
    ensures forall y :: y in r <==> y in Directions(loc) && !Blocked(t, y)
    ensures forall y :: y in r ==> 0 <= y.row < t.rows && 0 <= y.col < t.cols && y !in t.walls
  {
    Open(t, Directions(loc))
  }

  /**
   * The filter can return cells that fail its own test: on a one-column,
   * two-row board with a wall at `(1, 0)`, the neighbours of `(0, 0)` are
   * the wall below and the off-board cell to the right, because each
   * follows a removed cell.
   */
  lemma BlockedNeighborsReturned()
    ensures var t := Terrain(2, 1, {Coord(1, 0)});
            ValidNeighbors(t, Coord(0, 0)) == [Coord(1, 0), Coord(0, 1)] &&
            Blocked(t, Coord(1, 0)) && Blocked(t, Coord(0, 1))
  {
  }

  /**
   * `_get_valid_neighbors`: iterate over `[up, down, left, right]` with an
   * index, removing each cell that fails the test from the list being
   * iterated.
   */
  method GetValidNeighbors(b: array2<int>, loc: Coord) returns (potential: seq<Coord>)
    ensures potential == ValidNeighbors(TerrainOf(b), loc)
    ensures |potential| <= 4
    ensures forall y :: y in potential ==> Adjacent(loc, y)
  {
    ghost var t := TerrainOf(b);
    potential := Directions(loc);
    var i := 0;
    while i < |potential|
      invariant Sweep(t, potential, i) == Sweep(t, Directions(loc), 0)
      invariant |potential| <= 4
      decreases |potential| - i
    {
      var newLoc := potential[i];
      if newLoc.row < 0 || newLoc.col < 0 || newLoc.row >= b.Length0 ||
         newLoc.col >= b.Length1 || b[newLoc.row, newLoc.col] == WALL
      {
        potential := RemoveFirst(potential, newLoc);
      }
      i := i + 1;
    }
    NeighborsSweep(t, loc);
    NeighborsShape(t, loc);
  }
}
