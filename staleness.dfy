/**
 * The least-recently-seen memory of the seeker (`coord_to_turn`): a map
 * from a cell to the last turn number at which it was swept. A cell with no
 * entry counts as turn 0. This module holds the pure descriptions that the
 * seeker's loops are proved against.
 */
module Staleness {
  import opened Grid

  type Memory = map<Coord, nat>

  /** `best = 999`: the initial bound of the search move's scan. */
  const INITIAL_BEST: nat := 999

  /**
   * The recorded turn of `c`, where a missing entry is written in as 0: a
   * cell never swept counts as older than every sweep, and no cell counts
   * as later than the latest recorded turn.
   */
  function TurnOf(m: Memory, c: Coord): (r: nat)
    ensures c !in m ==> r == 0
    ensures forall t: nat :: UpTo(m, t) ==> r <= t
  {
    if c in m then m[c] else 0
  }

  /**
   * `if m not in self.coord_to_turn: self.coord_to_turn[m] = 0`, for every
   * cell of `vs` in turn: every cell of `vs` gets an entry, new entries are
   * 0 and existing entries keep their value.
   */
  function Seed(m: Memory, vs: seq<Coord>): (r: Memory)
    ensures forall x :: x in r <==> x in m || x in vs
    ensures forall x :: x in r ==> r[x] == TurnOf(m, x)
  {
    if vs == [] then m
    else
      var r0 := Seed(m, vs[..|vs| - 1]);
      var x := vs[|vs| - 1];
      if x in r0 then r0 else r0[x := 0]
  }

  /**
   * The value of `best` after the scan of `vs`: the least recorded turn of
   * a cell of `vs`, but never above `INITIAL_BEST`.
   */
  function Lowest(m: Memory, vs: seq<Coord>): (r: nat)
    ensures r <= INITIAL_BEST
    ensures forall x :: x in vs ==> r <= TurnOf(m, x)
    ensures r == INITIAL_BEST || exists x :: x in vs && TurnOf(m, x) == r
  {
    if vs == [] then INITIAL_BEST
    else
      var lo, x := Lowest(m, vs[..|vs| - 1]), vs[|vs| - 1];
      assert forall y :: y in vs ==> y in vs[..|vs| - 1] || y == x;
      if TurnOf(m, x) < lo then TurnOf(m, x) else lo
  }

  /** The cells of `vs` recorded at turn `v`, in order, repeats kept. */
  function Ties(m: Memory, vs: seq<Coord>, v: nat): (r: seq<Coord>)
    ensures forall x :: x in r <==> x in vs && TurnOf(m, x) == v
    ensures |r| <= |vs|
  {
    if vs == [] then []
    else
      var r0, x := Ties(m, vs[..|vs| - 1], v), vs[|vs| - 1];
      assert forall y :: y in vs <==> y in vs[..|vs| - 1] || y == x;
      if TurnOf(m, x) == v then r0 + [x] else r0
  }

  /**
   * The list `best_moves` after the scan of `vs`, which started out as
   * `[here]` (the current location): the cells of `vs` with the least
   * recorded turn, preceded by `here` when that least turn is
   * `INITIAL_BEST` (no cell beat the initial bound).
   */
  function Candidates(here: Coord, m: Memory, vs: seq<Coord>): (r: seq<Coord>)
    ensures r != []
    ensures forall y :: y in r <==>
              (y in vs && TurnOf(m, y) == Lowest(m, vs)) || (Lowest(m, vs) == INITIAL_BEST && y == here)
  {
    var lo := Lowest(m, vs);
    if lo < INITIAL_BEST then
      var x :| x in vs && TurnOf(m, x) == lo;
      assert x in Ties(m, vs, lo);
      Ties(m, vs, lo)
    else [here] + Ties(m, vs, INITIAL_BEST)
  }

  /**
   * What the random pick among `best_moves` can return: a cell of `vs` whose
   * recorded turn is least among `vs`, or the current location, and the
   * latter only when no cell of `vs` is recorded below `INITIAL_BEST`.
   */
  lemma CandidateChoice(here: Coord, m: Memory, vs: seq<Coord>, c: Coord)
    requires c in Candidates(here, m, vs)
    ensures c in vs || c == here
    ensures c in vs && c != here ==> forall x :: x in vs ==> TurnOf(m, c) <= TurnOf(m, x)
    ensures c == here && here !in vs ==> forall x :: x in vs ==> TurnOf(m, x) >= INITIAL_BEST
    ensures (exists x :: x in vs && TurnOf(m, x) < INITIAL_BEST) ==>
              c in vs && forall x :: x in vs ==> TurnOf(m, c) <= TurnOf(m, x)
  {
  }

  /** No cell of `vs` recorded at turn `v` leaves no ties at `v`. */
  lemma {:induction false} TiesNone(m: Memory, vs: seq<Coord>, v: nat)
    requires forall x :: x in vs ==> TurnOf(m, x) != v
    ensures Ties(m, vs, v) == []
  {
    if vs != [] {
      var init := vs[..|vs| - 1];
      assert forall x :: x in init ==> x in vs;
      TiesNone(m, init, v);
    }
  }

  /** With no move, or every move recorded above `INITIAL_BEST`, the seeker stays put. */
  lemma StaysWhenNothingOlder(here: Coord, m: Memory, vs: seq<Coord>)
    requires forall x :: x in vs ==> TurnOf(m, x) > INITIAL_BEST
    ensures Candidates(here, m, vs) == [here]
  {
    TiesNone(m, vs, INITIAL_BEST);
  }

  /** A value below the least turn of `vs` is held by none of its cells. */
  lemma TiesBelowLowest(m: Memory, vs: seq<Coord>, v: nat)
    requires v < Lowest(m, vs)
    ensures Ties(m, vs, v) == []
  {
    TiesNone(m, vs, v);
  }

  /** Seeding one more cell adds its entry at 0 when it has none. */
  lemma SeedStep(m: Memory, vs: seq<Coord>, x: Coord)
    ensures Seed(m, vs + [x]) == if x in Seed(m, vs) then Seed(m, vs) else Seed(m, vs)[x := 0]
  {
    assert (vs + [x])[..|vs|] == vs;
  }

  /**
   * One step of the scan of `_move_to_lrs_square`: from `best` and
   * `best_moves` of the prefix, the comparison with the next cell's turn
   * gives those of the longer prefix.
   */
  lemma ScanStep(here: Coord, m: Memory, vs: seq<Coord>, x: Coord)
    ensures var lo, v := Lowest(m, vs), TurnOf(m, x);
            Lowest(m, vs + [x]) == (if v < lo then v else lo) &&
            Candidates(here, m, vs + [x]) ==
              (if v < lo then [x]
               else if v == lo then Candidates(here, m, vs) + [x]
               else Candidates(here, m, vs))
  {
    var vs' := vs + [x];
    assert vs'[..|vs'| - 1] == vs;
    var lo, v := Lowest(m, vs), TurnOf(m, x);
    if v < lo {
      TiesBelowLowest(m, vs, v);
    }
  }

  /**
   * The state of the scan of `_move_to_lrs_square` after the prefix `seen`:
   * the memory, `best` and `best_moves` are those of `Seed`, `Lowest` and
   * `Candidates`. It is wrapped in `depth` layers so that a loop carrying it
   * does not see these definitions; `ScanOpen` and `ScanClose` unwrap and
   * wrap it.
   */
  ghost predicate ScanState(depth: nat, here: Coord, m: Memory, seen: seq<Coord>,
                            mem: Memory, best: nat, bestMoves: seq<Coord>)
    decreases depth
  {
    if depth == 0 then
      mem == Seed(m, seen) && best == Lowest(m, seen) && bestMoves == Candidates(here, m, seen)
    else ScanState(depth - 1, here, m, seen, mem, best, bestMoves)
  }

  lemma {:induction false} ScanOpen(depth: nat, here: Coord, m: Memory, seen: seq<Coord>,
                                    mem: Memory, best: nat, bestMoves: seq<Coord>)
    requires ScanState(depth, here, m, seen, mem, best, bestMoves)
    ensures mem == Seed(m, seen) && best == Lowest(m, seen) && bestMoves == Candidates(here, m, seen)
    decreases depth
  {
    if depth > 0 {
      ScanOpen(depth - 1, here, m, seen, mem, best, bestMoves);
    }
  }

  lemma {:induction false} ScanClose(depth: nat, here: Coord, m: Memory, seen: seq<Coord>,
                                     mem: Memory, best: nat, bestMoves: seq<Coord>)
    requires mem == Seed(m, seen) && best == Lowest(m, seen) && bestMoves == Candidates(here, m, seen)
    ensures ScanState(depth, here, m, seen, mem, best, bestMoves)
    decreases depth
  {
    if depth > 0 {
      ScanClose(depth - 1, here, m, seen, mem, best, bestMoves);
    }
  }

  /**
   * One pass of the scan's loop body: seed the next cell `x`, then compare
   * its turn with `best` (`<` restarts `best_moves`, `==` appends to it).
   */
  lemma ScanAdvance(depth: nat, here: Coord, m: Memory, seen: seq<Coord>, x: Coord,
                    mem: Memory, best: nat, bestMoves: seq<Coord>)
    requires ScanState(depth, here, m, seen, mem, best, bestMoves)
    ensures var mem' := if x in mem then mem else mem[x := 0];
            ScanState(depth, here, m, seen + [x], mem',
                      if mem'[x] < best then mem'[x] else best,
                      if mem'[x] < best then [x]
                      else if mem'[x] == best then bestMoves + [x]
                      else bestMoves)
  {
    ScanOpen(depth, here, m, seen, mem, best, bestMoves);
    ScanStep(here, m, seen, x);
    SeedStep(m, seen, x);
    var mem' := if x in mem then mem else mem[x := 0];
    assert mem'[x] == TurnOf(m, x);
    ScanClose(depth, here, m, seen + [x], mem',
              if mem'[x] < best then mem'[x] else best,
              if mem'[x] < best then [x]
              else if mem'[x] == best then bestMoves + [x]
              else bestMoves);
  }

  /**
   * `for s in path: coord_to_turn[s] = turn_num`, in order: every cell of
   * `cells` is recorded at turn `t`, every other entry is kept.
   */
  function Stamp(m: Memory, cells: seq<Coord>, t: nat): (r: Memory)
    ensures forall x :: x in r <==> x in m || x in cells
    ensures forall x :: x in r ==> r[x] == if x in cells then t else m[x]
  {
    if cells == [] then m
    else Stamp(m, cells[..|cells| - 1], t)[cells[|cells| - 1] := t]
  }

  /**
   * `m1` records `here` and every cell of `path` at turn `t`, and every
   * other cell of `m1` as `m0` had it (a missing entry as 0).
   */
  ghost predicate Swept(m0: Memory, path: seq<Coord>, here: Coord, t: nat, m1: Memory)
  {
    here in m1 && m1[here] == t &&
    (forall x :: x in path ==> x in m1 && m1[x] == t) &&
    (forall x :: x in m1 && x !in path && x != here ==> m1[x] == TurnOf(m0, x))
  }

  /** Seeding the moves and then stamping a path and `here` sweeps exactly those cells. */
  lemma StampAfterSeed(m: Memory, vs: seq<Coord>, path: seq<Coord>, here: Coord, t: nat)
    ensures var m1 := Stamp(Seed(m, vs), path + [here], t);
            (forall x :: x in vs ==> x in m1) && (forall x :: x in m ==> x in m1) &&
            Swept(m, path, here, t, m1)
  {
    var cells := path + [here];
    assert here in cells;
    assert forall x :: x in cells <==> x in path || x == here;
  }

  /** Every recorded turn is at most `t`. */
  ghost predicate UpTo(m: Memory, t: nat)
  {
    forall x :: x in m ==> m[x] <= t
  }

  /** `m'` keeps every entry of `m`, at the same or a later turn. */
  ghost predicate NoDecrease(m: Memory, m': Memory)
  {
    forall x :: x in m ==> x in m' && m[x] <= m'[x]
  }

  /** Seeding and then stamping at a turn no earlier than any recorded one moves no entry back. */
  lemma SeedStampMonotone(m: Memory, vs: seq<Coord>, cells: seq<Coord>, t: nat)
    requires UpTo(m, t)
    ensures NoDecrease(m, Seed(m, vs)) && UpTo(Seed(m, vs), t)
    ensures NoDecrease(m, Stamp(m, cells, t)) && UpTo(Stamp(m, cells, t), t)
    ensures NoDecrease(m, Stamp(Seed(m, vs), cells, t)) && UpTo(Stamp(Seed(m, vs), cells, t), t)
  {
  }
}
