/**
 Walks through a level: sequences of traversable cells in which each cell is
 adjacent to the next, their cost, and reachability.
 */
module Walks {
  import opened Grid

  /** A non-empty sequence of traversable cells, each adjacent to the next. */
  ghost predicate IsWalk(level: Level, w: seq<Cell>)
  {
    && |w| >= 1
    && (forall i :: 0 <= i < |w| ==> w[i] in level.spaces)
    && (forall i :: 0 <= i < |w| - 1 ==> Adjacent(w[i], w[i + 1]))
  }

  /** `w` is a walk that starts at `from` and ends at `to`. */
  ghost predicate WalkFrom(level: Level, w: seq<Cell>, from: Cell, to: Cell)
  {
    IsWalk(level, w) && w[0] == from && w[|w| - 1] == to
  }

  /** Sum of the edge costs along a walk. */
  ghost function WalkCost(level: Level, w: seq<Cell>): real
    requires forall i :: 0 <= i < |w| ==> w[i] in level.spaces
    decreases |w|
  {
    if |w| <= 1 then 0.0
    else WalkCost(level, w[..|w| - 1]) + PathCost(level, w[|w| - 2], w[|w| - 1])
  }

  /** `to` can be reached from `from` by 8-directional steps through traversable cells. */
  ghost predicate Reachable(level: Level, from: Cell, to: Cell)
  {
    exists w :: WalkFrom(level, w, from, to)
  }

  /** Stepping from the end of a walk to an adjacent traversable cell gives a
      walk whose cost grows by exactly the cost of that step. */
  lemma ExtendWalk(level: Level, w: seq<Cell>, from: Cell, to: Cell, n: Cell)
    requires WalkFrom(level, w, from, to)
    requires n in level.spaces && Adjacent(to, n)
    ensures WalkFrom(level, w + [n], from, n)
    ensures WalkCost(level, w + [n]) == WalkCost(level, w) + PathCost(level, to, n)
  {
    var w' := w + [n];
    assert w'[..|w'| - 1] == w;
  }

  /** A set of cells that contains `from` and every traversable neighbour of
      each of its members contains every cell reachable from `from`. */
  lemma {:induction false} ClosedContainsReachable(level: Level, k: set<Cell>, from: Cell, to: Cell)
    requires from in k
    requires forall c :: c in k ==> NeighborCells(level, c) <= k
    requires Reachable(level, from, to)
    ensures to in k
  {
    var w :| WalkFrom(level, w, from, to);
    ClosedContainsWalk(level, k, w);
  }

  lemma {:induction false} ClosedContainsWalk(level: Level, k: set<Cell>, w: seq<Cell>)
    requires IsWalk(level, w) && w[0] in k
    requires forall c :: c in k ==> NeighborCells(level, c) <= k
    ensures w[|w| - 1] in k
    decreases |w|
  {
    if |w| > 1 {
      var p := w[..|w| - 1];
      assert IsWalk(level, p);
      ClosedContainsWalk(level, k, p);
      assert w[|w| - 1] in NeighborCells(level, w[|w| - 2]);
    }
  }
}
